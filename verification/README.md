# dump-hub, modelled in Dafny

dump-hub indexes text dumps into a search engine. A user uploads a file, picks a start line, a field separator and the columns to keep, and the server parses every line into an entry and bulk-inserts the entries. An index of status documents, keyed by file checksum, follows each upload through its states; a startup sweep repairs documents left in a transient state; a delete job scrolls the file's entries out of the index again. The web front end previews the file and builds the pattern the server parses.

This project models the deterministic core of that system:

- the dump-line parser: the `{%d}{%1s}` pattern reader of `parser.New` and the field selection of `ParseEntry` (modules `PatternScan`, `Parser`, `GoText`);
- the ingestion line loop shared by `processEntry` and `IndexFile`, and the chunking done by each insert worker (`Ingest`);
- the status index as a map from checksum to document, with insert, partial status update, get, membership and sorted paging (`StatusStore`), in both status numberings: the current codes of `internal/common/const.go` (Processing 0, Deleting 1, Enqueued 2, Error 3, Complete 4) and the earlier packages' codes (0 processing, 1 complete, 2 deleting, -1 error);
- the jobs as traces of the requests they make, replayed against the engine's state: `IndexFile`, the earlier `analyze`/`analyzeFile`/`processEntry`, the bulk requests (`Jobs`), and `DeleteEntries` in both versions (`Deletion`);
- the startup sweeps `cleanStatus` (both versions) and `cleanHistory` (`Sweep`);
- the earlier package's `CreateIndex`, `Search` and `GetStatus` (`LegacyApi`);
- `readPreview` (`Preview`);
- the upload folder: file names stored as the standard base64 encoding (section 4 of RFC 4648) of the name without its extension, and the folder listing (`Base64`, `Share`);
- the two front-end views: the preview table, the pattern each view builds, comment filtering and column toggling (`PreviewTable`, `AnalyzeView`, `UploadView`).

The search engine is a `Backend` value: the status index (a map), the entry index (a map from document id to entry) and the two gates (the delete job's busy flag and the bulk worker's mutex). A scroll is given as the sequence of pages it returns. A file is the sequence of its lines. Every engine request whose failure changes what the model tracks takes a flag or a set saying which requests the engine refuses: the creation of a status document, each status write (a set of the status codes whose write is refused), the removal of a status document, and each bulk delete (a set of request numbers). A job whose source ignores or only logs such an error carries on in the model too. A refresh only makes earlier writes visible to searches, which the model does not track, so its failure changes nothing here.

Where the code and its documentation disagree, the model follows the code. A line made only of spaces is not skipped: `ParseEntry` returns an entry whose data is empty, because the nil check after the field loop can never fire (`Parser.BlankLineGivesEmptyEntry`).

## Model

| member | source | states |
|---|---|---|
| PatternScan.Scan | dump-hub/internal/parser/parser.go:51-59 | The pattern reader succeeds only on input that starts with `{`; what it reads is a 64-bit start line and a separator that is not white space; empty input is refused |
| PatternScan.ScanInt | dump-hub/internal/parser/parser.go:51-59 | The `%d` verb yields a value that fits in 64 bits and consumes exactly a run of digits, ending at the first non-digit |
| PatternScan.ScanRune | dump-hub/internal/parser/parser.go:51-59 | The `%1s` verb yields one rune that is not white space, the last one it consumed |
| PatternScan.ScanOfRendered | dump-hub/internal/parser/parser.go:51-59 | For every 64-bit integer n and non-space rune c, the pattern `{n}{c}` reads back as start n and separator c, whatever text follows it |
| PatternScan.ScanOfLayout | dump-hub/internal/parser/parser.go:51-59 | Any string laid out as `{n}{c}...` reads back as start n and separator c |
| PatternScan.ScanIntRejectsLongNumber | dump-hub/internal/parser/parser.go:51-59 | A start of twenty or more digits without a leading zero is out of the 64-bit range and is refused |
| PatternScan.RejectedMissingBrace | dump-hub/internal/parser/parser.go:51-59 | `{1}{:` (no closing brace) is refused |
| PatternScan.RejectedSpaceSeparator | dump-hub/internal/parser/parser.go:51-59 | `{1}{ }` (a space as separator) is refused |
| PatternScan.RejectedNonNumericStart | dump-hub/internal/parser/parser.go:51-59 | `{x}{:}` (a start that is not a number) is refused |
| PatternScan.RejectedOverflow | dump-hub/internal/parser/parser.go:51-59 | `{10000000000000000000}{:}` (a start past 64 bits) is refused |
| PatternScan.AcceptedSpacedSignedPattern | dump-hub/internal/parser/parser.go:51-59 | The reader is lenient: spaces before either value and an explicit sign are accepted (`{ -2}{ ,}` reads as -2 and `,`) |
| PatternScan.AcceptedPaddedPatternWithTrailer | dump-hub/internal/parser/parser.go:51-59 | Leading zeros, a `+` sign and text after the last brace are accepted (`{+07}{;}x` reads as 7 and `;`) |
| PatternScan.AcceptedBraceSeparator | dump-hub/internal/parser/parser.go:51-59 | `}` itself is accepted as a separator (`{0}{}}`) |
| Parser.New | dump-hub/internal/parser/parser.go:48-71 | A parser is built exactly when the pattern reads and the checksum was computed; a refused pattern returns the reader's error; columns, file name, file path and checksum are stored unchanged |
| Parser.Fields | dump-hub/internal/parser/parser.go:86-89 | After every space is removed and the line is split, no field contains a space or the separator, and there is at least one field |
| Parser.ParseEntry | dump-hub/internal/parser/parser.go:76-119 | No entry exactly for the empty line; every other line gives an entry with origin the parser's file name and origin id its checksum, whose values are non-empty fields of the line without spaces or separator |
| Parser.CopiesCount | dump-hub/internal/parser/parser.go:100-105 | The column loop emits a field once per occurrence of its index in `Columns` |
| Parser.PositionsLocate | dump-hub/internal/parser/parser.go:95-106 | Each kept value is the field at its recorded position |
| Parser.PositionsSorted | dump-hub/internal/parser/parser.go:95-106 | Kept values follow field order, not the order of `Columns` |
| Parser.PositionsCount | dump-hub/internal/parser/parser.go:95-106 | Field j is kept once per occurrence of j in `Columns` when it is non-empty, and never when it is empty, unselected or out of range |
| Parser.ColumnOrderIrrelevant | dump-hub/internal/parser/parser.go:95-106 | Two column lists with the same elements and multiplicities select the same values |
| Parser.OutOfRangeColumnsIgnored | dump-hub/internal/parser/parser.go:100-105 | Column indices outside the field range add nothing and cause no error |
| Parser.ParseEntryColumns | dump-hub/internal/parser/parser.go:76-119 | `ParseEntry` depends on `Columns` only through how often each in-range index occurs |
| Parser.BlankLineGivesEmptyEntry | dump-hub/internal/parser/parser.go:108-116 | A line of spaces yields an entry with empty data: the nil check cannot fire |
| Ingest.LineLoop | dump-hub/internal/api/analyze.go:170-184 | The loop as written hands over every parsed line in file order when the counter starts at or above `Start`, and nothing when it starts below |
| Ingest.ForwardedWhenStartNotPositive | dump-hub/internal/esapi/bulk.go:90-104 | With `Start <= 0` every line that parses is handed over in file order, that is every non-empty line |
| Ingest.ForwardedWhenStartPositive | dump-hub/internal/api/analyze.go:173-183 | With `Start > 0` no line is handed over, because the counter advances only after a hand-over |
| Ingest.ParsedAllLength | dump-hub/internal/api/analyze.go:177-181 | Only empty lines are dropped by the loop: the hand-overs number the lines minus the empty ones |
| Ingest.HeaderSkipCounterexample | dump-hub/internal/esapi/bulk.go:92-103 | With `Start = 1` the file `header`, `a` hands over nothing as written, and the entry of `a` as intended |
| Ingest.LineLoopIntended | dump-hub/internal/esapi/bulk.go:90-104 | The corrected loop, whose counter counts lines, hands over the parsed lines from index `Start` on |
| Ingest.IntendedLoopSkipsHeader | dump-hub/internal/esapi/bulk.go:90-104 | The corrected loop skips exactly the first `Start` lines and agrees with the written one when `Start <= 0` |
| Ingest.Uploader | dump-hub/internal/api/analyze.go:204-239 | Every in-loop flush carries exactly `ChunkSize` entries, the final chunk fewer, and the flushes followed by the final chunk are the starting chunk and the received non-nil values, in order |
| Ingest.WorkerSendsWhatItReceived | dump-hub/internal/api/analyze.go:209-236 | A worker's insert calls, concatenated, are exactly the non-nil values it received, in receipt order; a worker that received no entry makes no call |
| Ingest.WorkerBatchCounts | dump-hub/internal/api/analyze.go:210-236 | A worker that received q·ChunkSize + r entries makes q full calls and one final call of r entries when r > 0 |
| Ingest.EveryEntryInsertedOnce | dump-hub/internal/api/analyze.go:163-189 | Whichever worker takes each entry from the channel, all workers together insert every handed-over entry exactly once |
| Jobs.BulkInsertOps | dump-hub/internal/elastic/esapi.go:117-136 | A bulk insert has one index operation per entry |
| Jobs.BulkInsertCarriesEntries | dump-hub/internal/elastic/esapi.go:117-136 | The insert request carries exactly the given entries, in order |
| Jobs.BulkDeleteOps | dump-hub/internal/esapi/delete.go:120-138 | A bulk delete has one delete operation per id |
| Jobs.BulkDeleteCarriesIds | dump-hub/internal/esapi/delete.go:120-138 | The delete request carries exactly the given ids, in order |
| Jobs.BulkDeleteRemoves | dump-hub/internal/esapi/delete.go:120-138 | An accepted bulk delete removes exactly the given ids and leaves every other entry as it was |
| Jobs.IndexFileWritesAndEntries | dump-hub/internal/esapi/bulk.go:58-117 | `IndexFile` writes the statuses Enqueued, Processing, Complete in that order, also when the file does not open or the engine refuses some of the writes, and hands over what the line loop yields |
| Jobs.IntendedIndexFileEntries | dump-hub/internal/esapi/bulk.go:58-117 | With the corrected line loop `IndexFile` keeps the same three status writes and hands over the parsed lines after the first `Start` |
| Jobs.IndexFileOrder | dump-hub/internal/esapi/bulk.go:59-116 | Processing is written after the worker mutex is taken, the join precedes the refresh, the refresh precedes Complete, and Complete precedes the release |
| Jobs.IndexFileEffect | dump-hub/internal/esapi/bulk.go:58-117 | Started with the mutex free, `IndexFile` leaves the file's status document at the last status the engine accepted (Complete when that write is accepted, unchanged when all three are refused) with its other fields kept; no other status document, no key and no entry changes, and the mutex is free again |
| Jobs.AnalyzeResponse | dump-hub/internal/api/analyze.go:43-76 | The request is accepted exactly when its body decodes, it names at least one column and the file exists; an undecodable body or an empty column list is a bad request, a decodable request with columns for a missing file is not found |
| Jobs.AnalyzeStartsOnSuccess | dump-hub/internal/api/analyze.go:43-76 | The background `analyzeFile` is started exactly when the answer is 200, and it receives the decoded request |
| Jobs.AnalyzeFileOrder | dump-hub/internal/api/analyze.go:93-198 | The status document (status 0) is written first and nothing else happens when that write fails; with an accepted pattern the job ends with the join, the refresh and status 1 |
| Jobs.AnalyzeFileEffect | dump-hub/internal/api/analyze.go:93-198 | A refused status document leaves the engine unchanged; otherwise the document keeps the fields it was created with and ends at status 1 when the pattern parses and the final write is accepted, at status 0 when either fails; no entry changes |
| StatusStore.NewStatusDocument | dump-hub/internal/esapi/status.go:90-107 | A successful write stores the document under the checksum, replacing any earlier one, and leaves every other key as it was; a refused write is an error |
| StatusStore.UpdateUploadStatus | dump-hub/internal/esapi/status.go:112-124 | A successful update changes only the status field of the keyed document; a missing document or a refused request is an error |
| StatusStore.GetDocumentStatus | dump-hub/internal/esapi/status.go:69-85 | The stored document is returned exactly when it exists and decodes; an undecodable source is an error, not a partial result |
| StatusStore.IsAlreadyUploaded | dump-hub/internal/esapi/utils.go:29-39 | True exactly when a document with that id exists; a failed request is reported as false with an error |
| StatusStore.ReadAfterNew | dump-hub/internal/esapi/utils.go:29-38 | After `NewStatusDocument(h, c)`, `GetDocumentStatus(c)` returns h and `IsAlreadyUploaded(c)` holds |
| StatusStore.UpdateOverwrites | dump-hub/internal/esapi/status.go:112-124 | Of two updates the last one wins, and writing the current status again changes nothing |
| StatusStore.ReadAfterUpdate | dump-hub/internal/esapi/status.go:69-124 | Reading a document after an update gives its old fields with the new status |
| StatusStore.SortByStatusCorrect | dump-hub/internal/esapi/status.go:37-46 | The sort on the status field orders by status and keeps every document exactly once |
| StatusStore.Window | dump-hub/internal/esapi/status.go:44-45 | A page holds at most `size` elements, taken in order from offset `from`, and is full unless the list runs out |
| StatusStore.DecodeAll | dump-hub/internal/esapi/status.go:51-63 | A page decodes exactly when every hit decodes, into the hits' documents in order; one bad hit fails the page |
| StatusStore.GetStatus | dump-hub/internal/esapi/status.go:36-67 | The answer succeeds exactly when the request is accepted and every hit of the sorted page decodes, and is an undecodable-document error when one does not; its results are the page's documents in order, at most `size` of them, in non-decreasing status order, and the total is the number of status documents whatever `from` and `size` are |
| StatusStore.PagesTile | dump-hub/internal/esapi/status.go:36-67 | The pages `[0, a)` and `[a, a+b)` together are the page `[0, a+b)` |
| StatusStore.FullListing | dump-hub/internal/esapi/status.go:36-67 | A page from offset 0 at least as large as the index lists every stored document, once per key |
| Sweep.Pass | dump-hub/internal/esapi/clean.go:58-86 | A scroll pass only updates documents: no key is added or removed |
| Sweep.PassIsRewritten | dump-hub/internal/esapi/clean.go:58-86 | A pass marks every listed document whose update is accepted and leaves every other document as it was; a refused update does not stop it |
| Sweep.TwoPassIsSwept | dump-hub/internal/esapi/clean.go:55-117 | The two scroll passes equal the reference sweep: every document in either swept status is marked unless its update is refused |
| Sweep.SweptIdempotent | dump-hub/internal/esapi/clean.go:55-117 | Sweeping a swept store again changes nothing when the target code is not a swept status |
| Sweep.CleanStatusEffect | dump-hub/internal/esapi/clean.go:55-117 | After `cleanStatus` no document is Processing or Deleting unless its update was refused; each rewritten one is exactly Error with its other fields; Enqueued, Error and Complete documents and the key set are unchanged |
| Sweep.CleanStatusIdempotent | dump-hub/internal/esapi/clean.go:55-117 | Running `cleanStatus` twice gives the store one run gives |
| Sweep.FailureDoesNotStopSweep | dump-hub/internal/esapi/clean.go:80-85 | With the first of two Processing documents refused, the second is still set to Error |
| Sweep.LegacyCleanStatusEffect | dump-hub/internal/elastic/clean.go:61-123 | After the earlier `cleanStatus` no document is 0 or 2 unless its update was refused; swept ones are -1; the rest and the key set are unchanged |
| Sweep.CleanHistoryEffect | dump-hub/elastic/clean.go:58-121 | After `cleanHistory` no history document is 0 or 2 unless its update was refused; swept ones are -1; the rest and the key set are unchanged |
| LegacyApi.CreateIndex | dump-hub/internal/elastic/esapi.go:38-56 | The index is created with its mapping only when absent; an existing index and every other index are kept; a refused request is an error |
| LegacyApi.CreateIndexIdempotent | dump-hub/internal/elastic/esapi.go:38-56 | Creating an index a second time, with any mapping, changes nothing and does not fail |
| LegacyApi.SearchQuery | dump-hub/internal/elastic/esapi.go:65-92 | Match-all exactly for the empty query and `*`; otherwise a phrase match on the query text |
| LegacyApi.SearchStarIsEmpty | dump-hub/internal/elastic/esapi.go:65-92 | `*` and the empty query ask the engine the same question |
| LegacyApi.DecodePrefix | dump-hub/internal/elastic/esapi.go:96-108 | Hits are decoded in order and decoding stops at the first hit whose source does not decode |
| LegacyApi.DecodePrefixCases | dump-hub/internal/elastic/esapi.go:96-108 | Every hit is kept exactly when every hit decodes; otherwise the result is the hits before the first undecodable one |
| LegacyApi.Search | dump-hub/internal/elastic/esapi.go:61-112 | A refused request is an error; otherwise the page's entries up to the first undecodable one, without error, and the engine's total |
| LegacyApi.LegacyGetStatus | dump-hub/internal/elastic/esapi.go:217-247 | An unsorted page of the uploads index, cut at the first undecodable document without error, with the total count; only a refused request is an error |
| LegacyApi.LegacyGetStatusAgainstDecodeAll | dump-hub/internal/elastic/esapi.go:230-243 | Where the current `GetStatus` page decodes, the earlier one gives the same documents; where it fails, the earlier one returns the documents before the first bad one |
| Deletion.PageLoop | dump-hub/internal/esapi/delete.go:76-90 | Within a page every request sent carries exactly `cSize + 1` ids, and the requests plus the chunk left over are the incoming chunk and the page's ids, in order |
| Deletion.PageCalls | dump-hub/internal/esapi/delete.go:76-102 | A page's requests, the end-of-page one included, carry 1 to `cSize + 1` ids each and together the incoming chunk and the page's ids |
| Deletion.ScrollLoop | dump-hub/internal/esapi/delete.go:63-103 | No request carries more than `cSize + 1` ids, because the flush test is strict |
| Deletion.DeleteCallsCover | dump-hub/internal/esapi/delete.go:63-103 | As written, an id is in some request exactly when the scroll returned it: none missed, none invented |
| Deletion.DeleteCallsResend | dump-hub/internal/esapi/delete.go:87-102 | As written, two one-hit pages `a`, `b` give the requests `[a]`, `[a, b]`: `a` is sent twice; with the chunk emptied they give `[a]`, `[b]` |
| Deletion.IntendedDeleteCalls | dump-hub/internal/esapi/delete.go:63-103 | With the chunk emptied after each end-of-page request, no request is empty or carries more than `cSize + 1` ids |
| Deletion.IntendedDeleteCallsExact | dump-hub/internal/esapi/delete.go:63-103 | With the chunk emptied after each end-of-page request, the requests carry every scrolled id exactly once, in scroll order |
| Deletion.ApplyBulkDelete | dump-hub/internal/esapi/delete.go:120-138 | An accepted bulk delete leaves the engine with exactly its ids removed from the entry index |
| Deletion.RunRequests | dump-hub/internal/esapi/delete.go:63-103 | A run of accepted bulk deletes removes the ids of all their chunks and changes nothing else |
| Deletion.DeleteTraceOrder | dump-hub/internal/esapi/delete.go:37-115 | The busy flag is set first and the status goes to Deleting before any request; the flag is cleared only as the last event, exactly when the scroll ended and every request was accepted, right after the refresh and the removal of the status document, whether or not the engine accepted the status writes and the removal |
| Deletion.DeleteEntriesCover | dump-hub/internal/esapi/delete.go:63-109 | When no request is refused, every scrolled id is in an accepted request made before the status document is removed |
| Deletion.DeleteTraceCompletes | dump-hub/internal/esapi/delete.go:37-115 | Started once the busy flag is clear, with every request accepted the ids are deleted; at the end of the scroll the flag is cleared and the status document is gone when its removal is accepted, and otherwise left as the Deleting write left it; after a scroll error the flag stays set and the document carries the last status write accepted (Error, else Deleting, else unchanged) |
| Deletion.DeleteTraceFails | dump-hub/internal/esapi/delete.go:37-101 | Started once the busy flag is clear, when request f is the first refused, the ids of the earlier requests are deleted, the status document stays and carries the last status write accepted (Error, else Deleting, else unchanged), the flag stays set and nothing more is sent |
| Deletion.DeleteEntriesRemovesFile | dump-hub/internal/esapi/delete.go:37-115 | Started once the busy flag is clear, when the scroll returns the file's entries and no request is refused, the job as written and the job with the chunk emptied leave the same engine: the file's entries gone, all other entries kept, the flag cleared; the status document is gone when the engine accepts its removal, and otherwise stays at Deleting (unchanged if that write was refused too), every other document kept |
| Deletion.RunLegacyRequests | dump-hub/internal/elastic/esapi.go:268-296 | The earlier job deletes the ids of the accepted requests and carries on past refused ones |
| Deletion.LegacyDeleteEntriesEffect | dump-hub/internal/elastic/esapi.go:252-309 | The earlier job removes the status document whether or not requests were refused, when the engine accepts the removal; a refused removal leaves it at status 2 (unchanged if that write was refused too) and every other document kept; it deletes only scrolled ids and all of them when none is refused, and touches no gate |
| Base64.Encode | dump-hub/internal/common/share.go:63-64 | The encoding has length 4·⌈n/3⌉ for n bytes and uses only the base64 alphabet and `=` |
| Base64.DecodeEncode | dump-hub/internal/common/share.go:63-79 | Decoding the standard encoding of any byte string gives it back |
| Base64.RejectsRaggedLength | dump-hub/internal/common/share.go:74-79 | Input whose length without line breaks is not a multiple of four is refused |
| Base64.RejectsForeignByte | dump-hub/internal/common/share.go:74-79 | Input holding a byte outside the alphabet that is neither `=` nor a line break is refused |
| Base64.DecoderExamples | dump-hub/internal/common/share.go:74-79 | Decoding skips CR and LF, requires full padding and ignores unused low bits (`QR==` and `QQ==` both decode to `A`) |
| Base64.OneBytePadded | dump-hub/internal/common/share.go:74-79 | A padded two-digit quantum decodes to the one byte formed by its top eight bits |
| Share.Ext | dump-hub/internal/common/share.go:57-60 | The extension is a suffix of the name that is empty or starts at a `.` and holds no other `.` or `/` |
| Share.TrimSuffix | dump-hub/internal/common/share.go:57-60 | A name ending with the suffix loses it; any other name is unchanged |
| Share.Stem | dump-hub/internal/common/share.go:57-60 | The stem followed by the extension is the name |
| Share.EncodeFilename | dump-hub/internal/common/share.go:55-67 | The stored name is 4·⌈n/3⌉ characters of the base64 alphabet and `=`, n being the stem's length |
| Share.FilenameRoundTrip | dump-hub/internal/common/share.go:55-83 | Decoding an encoded name gives the name without its extension |
| Share.EncodeFilenameInjective | dump-hub/internal/filesys/utils.go:59-70 | Two names are stored under the same name exactly when their stems agree |
| Share.ReencodeListed | dump-hub/internal/filesys/utils.go:59-85 | Encoding a listed name again finds the stored file exactly when the stem has no extension of its own |
| Share.DecodeFilenameRejects | dump-hub/internal/filesys/utils.go:75-85 | A name holding a byte outside the alphabet that is not `=` or a line break does not decode |
| Share.EncodedSlashExample | dump-hub/internal/api/share.go:101-113 | `???.txt` is stored as `Pz8/`: an encoded name can hold a path separator |
| Share.Listing | dump-hub/internal/filesys/utils.go:141-157 | An entry is listed exactly when its name does not start with `.` and decodes, under the decoded name and its size in whole megabytes, truncated |
| Share.ReadUploadFolder | dump-hub/internal/filesys/utils.go:133-161 | A directory read error is an error; otherwise at most one file per entry |
| Share.ListEntriesAppend | dump-hub/internal/api/share.go:72-93 | The listing keeps directory order |
| Share.ListEntriesMember | dump-hub/internal/api/share.go:64-96 | A file is listed exactly when some directory entry is listed as it |
| Share.UploadIsListed | dump-hub/internal/api/share.go:72-93 | A stored upload is always listed, under its name without extension |
| Share.HiddenNotListed | dump-hub/internal/api/share.go:73-76 | Hidden entries never reach the listing |
| Preview.ReadPreview | dump-hub/internal/api/preview.go:76-107 | A file that does not open is an error; otherwise the lines from the clamped start, at most `previewSize` of them and fewer only when the file runs out, in order; a scan error is reported exactly when scanning failed before it reached the line after the window |
| PreviewTable.ReplaceFirst | dump-hub-fe/src/app/analyze/analyze.component.ts:181 | `replace(' ', '')` shortens a line by one when it holds a space, and leaves it alone otherwise |
| PreviewTable.ReplaceFirstRemovesFirst | dump-hub-fe/src/app/analyze/analyze.component.ts:181 | What is removed is the first space: the text before and after it is kept |
| PreviewTable.ReplaceFirstKeepsLaterSpaces | dump-hub-fe/src/app/analyze/analyze.component.ts:192 | Only one space is removed: a space survives exactly when the line had two |
| PreviewTable.ReplaceFirstThenRemoveAll | dump-hub-fe/src/app/analyze/analyze.component.ts:192 | Removing the remaining spaces afterwards gives what the server's parser splits |
| PreviewTable.JsSplit | dump-hub-fe/src/app/analyze/analyze.component.ts:181 | A split on a non-empty separator has at least one piece; on the empty separator one piece per code unit |
| PreviewTable.JoinJsSplit | dump-hub-fe/src/app/analyze/analyze.component.ts:181 | Joining the pieces of a split with the separator gives back the line |
| PreviewTable.BuildRow | dump-hub-fe/src/app/analyze/analyze.component.ts:188-197 | A row has the table width; a cell shows its field when longer than one code unit and `N/A` otherwise |
| PreviewTable.MaxFieldCount | dump-hub-fe/src/app/analyze/analyze.component.ts:180-185 | The table width is the largest field count over the lines, 0 for no lines |
| PreviewTable.BuildRows | dump-hub-fe/src/app/analyze/analyze.component.ts:187-199 | One row per line, each of the table width, each cell as the field rule says |
| PreviewTable.BuildTable | dump-hub-fe/src/app/analyze/analyze.component.ts:175-199 | The width is the maximum field count, and every line becomes a row of that width with `N/A` for short or missing fields |
| PreviewTable.IsColumnSelected | dump-hub-fe/src/app/analyze/analyze.component.ts:107-113 | A column is selected exactly when it is in the list |
| PreviewTable.ToggleColumn | dump-hub-fe/src/app/analyze/analyze.component.ts:115-129 | Toggling flips the column's membership, keeps every other column's and keeps the list duplicate-free |
| PreviewTable.ToggleTwiceRestores | dump-hub-fe/src/app/analyze/analyze.component.ts:115-129 | Toggling an unselected column twice gives back the list exactly |
| PreviewTable.ToggleSelectedTwice | dump-hub-fe/src/app/analyze/analyze.component.ts:115-129 | Toggling a selected column twice moves it to the end of the list |
| AnalyzeView.ComputePatternRoundTrip | dump-hub-fe/src/app/analyze/analyze.component.ts:218-224 | For a 64-bit start and a non-space separator, `parser.New` builds a parser with exactly that start, separator and the given columns from the pattern the view sends |
| AnalyzeView.ParsePreviewTable | dump-hub-fe/src/app/analyze/analyze.component.ts:175-203 | The table is rebuilt as the field rule says, the selected columns are cleared and the new pattern reads back as the form's start and separator |
| UploadView.PatternStringNotAParserPattern | dump-hub-fe/src/app/upload/upload.component.ts:110-116 | The pattern the upload view builds puts the separator where the server reads the start line, so any separator other than a digit, sign or space is refused by `parser.New` |
| UploadView.DefaultPatternRejected | dump-hub-fe/src/app/upload/upload.component.ts:110-116 | With the form defaults `:` and `#` the view sends `{:}{#}`, which the server refuses |
| UploadView.SplitLines | dump-hub-fe/src/app/upload/upload.component.ts:206 | Splitting on runs of CR and LF gives pieces without line breaks, every inner piece non-empty |
| UploadView.SplitLinesKeepsText | dump-hub-fe/src/app/upload/upload.component.ts:206 | The pieces together are the text without its line breaks, in order |
| UploadView.KeptLines | dump-hub-fe/src/app/upload/upload.component.ts:215-219 | A line is kept exactly when, after its first space is removed, it does not start with the comment character |
| UploadView.KeptTake | dump-hub-fe/src/app/upload/upload.component.ts:210-213 | Stopping once twenty lines are kept keeps the first twenty non-comment lines |
| UploadView.ProcessPreview | dump-hub-fe/src/app/upload/upload.component.ts:205-223 | The preview is the first twenty non-comment lines of the text split on CR/LF runs, in order |
| UploadView.ParsePreview | dump-hub-fe/src/app/upload/upload.component.ts:171-203 | Nothing happens without a chosen file; otherwise the table is rebuilt as the field rule says and the selected columns are cleared |
| UploadView.OnFileSelect | dump-hub-fe/src/app/upload/upload.component.ts:92-158 | A file whose MIME type does not start with `text/` is refused; otherwise at most its first 8192 bytes are read, all of them for a smaller file |

## Left out

- Concurrency: goroutines, channels, the wait group, the worker mutex and the busy-wait on the busy flag are replaced by the order of events in a trace. A trace starts where the job has passed its gate, so the effect lemmas of the current `DeleteEntries` start from a clear busy flag and that of `IndexFile` from a free mutex. Which worker takes an entry is a free choice of the model (`Ingest.EveryEntryInsertedOnce` holds for every choice). The wait-group race in `uploader` is not modelled.
- The search engine itself (connection, index bootstrap, query DSL, JSON, refresh visibility): the indices are maps, a scroll is a given sequence of pages, a failing request is a flag, a set of refused request numbers or a set of status codes whose write is refused, and an undecodable document is a flag on the stored document.
- The `origin_id` match query of `DeleteEntries` is taken as equality on the entry's `originId`.
- A scroll error other than end-of-scroll makes the Go code dereference a nil result after logging (and, in the current version, writing Error); the model ends the job's trace there.
- SHA-256 checksums are opaque strings; `Parser.New` takes the checksum as an input that may be missing.
- File-system work (`moveTemp`, `MoveTemp`, `cleanTmp`, opening and scanning files): a file is the sequence of its lines, a directory the sequence of its entries; `analyzeFile` is modelled from the point where the file has been moved and its checksum taken.
- HTTP handlers and routing, including `previewFile`; of `analyze` only the response code and whether it starts the background job are modelled.
- `indexRoutine`, `isBusy`/`setBusy`, `bulkw.cSize`, `previewSize` and `UpdateHistoryStatus` are not part of this model: workers are modelled on `uploader`, chunk and preview sizes are parameters, and `UpdateHistoryStatus` is taken to be the same status-only update as `UpdateUploadStatus`.
- `newBulkWorker` only records its chunk size, which is the chunk-size parameter of the worker model.
- The workers' insert calls are modelled by `Ingest`; the job traces of `Jobs` hand entries over and do not replay the inserts into the entry index.
- Angular form and subscription wiring, and the other front-end components.
- Go strings are taken as valid Unicode text (`seq<char>`, one element per rune); byte-level behaviour on invalid UTF-8, where Go's string functions see replacement runes, is not modelled.
- JavaScript strings are modelled as sequences of code units, with no surrogate-pair handling; `readAsText` decoding of the 8192 bytes is not modelled.
- Log output and time formatting; the date of a status document is an input.
- `from`, `size` and the chunk size are natural numbers; the engine's limit on result windows is not modelled.
- Share.ReadUploadFolder: on a directory read error Go returns an empty list together with the error; the model returns the error alone.
- The Go `int` width of sizes is not modelled; sizes are unbounded naturals.

## Findings

| source | as written | input that shows it | evidently intended | confidence | as-written member | corrected member |
|---|---|---|---|---|---|---|
| dump-hub/internal/esapi/bulk.go:92-103 | `currentLine` is advanced only after an entry is handed over, so while it is below `Start` every line is skipped and it never grows | `Start = 1`, file `header`, `a`: nothing is indexed | the first `Start` lines are skipped and every later line is parsed | not executed | Ingest.HeaderSkipCounterexample | Jobs.IntendedIndexFileEntries |
| dump-hub/internal/esapi/delete.go:92-102 | the chunk is not emptied after the end-of-page bulk delete, so its ids are sent again with the next page's | two scroll pages `[a]`, `[b]` with `cSize >= 1`: requests `[a]`, `[a, b]` | each scrolled id is sent once | not executed | Deletion.DeleteCallsResend | Deletion.IntendedDeleteCallsExact |
