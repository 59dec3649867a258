# httpreplay, modelled in Dafny

A model of the pure logic inside the three scripts of httpreplay, with proofs about it.

- **The pcap replayer** (`replay_http_requests` in `python/http_replay.py`):
  - picks the captured payloads that contain both `HTTP` and `GET` anywhere (a request of any method, or a response, can qualify);
  - parses each one into method, path, a header dictionary and an optional body;
  - builds the target URL and the curl command line;
  - replays the list `count` times, pausing between requests unless running curl raised.

  The replay loop is modelled as a function that yields a trace of `Dispatch`, `Sleep` and `Skip` events. The loop method `HttpReplay.Replay` is proved to compute that trace.
- **The two spreadsheet converters** (`extractRequestsFromExcel` in `go/excel_to_gor.go`, `extract_requests_from_excel` in `python/excel_to_gor.py`):
  - turn the cells of one column into a GOR record stream;
  - each record is a metadata line `1 <id> <timestamp> 0`, the request text and the separator `"\n\n🐵🙈🙉\n"`;
  - request identifiers and timestamps are taken from parameter streams.

Modules:

| file | module | contents |
|---|---|---|
| `wrappers.dfy` | `Wrappers` | `Option`, `Result` |
| `seqs.dfy` | `Seqs` | order-preserving filter `Choose` with its `Positions`, `FirstIndex`, `Map` |
| `text.dfy` | `Text` | substring search; Python's `str.split(sep, maxsplit)` and `join`; `rstrip`; decimal integers |
| `whitespace.dfy` | `Whitespace` | Python `str.strip()` and Go `strings.TrimSpace`, as `Trim` over each runtime's whitespace class |
| `request_id.dfy` | `RequestId` | version 4 UUIDs (RFC 4122, sections 3 and 4.4) and the two 24-character identifier forms |
| `gor_format.dfy` | `GorFormat` | `SEP`, record blocks, terminated streams, the list-keyed writer loop, reading back |
| `http_request.dfy` | `HttpRequest` | request parsing, header dictionary, body, URL, curl argv |
| `http_replay.dfy` | `HttpReplay` | payload extraction, replay trace, loop methods, trace properties |
| `excel_to_gor_py.dfy` | `ExcelToGorPy` | the Python converter |
| `excel_to_gor_go.dfy` | `ExcelToGorGo` | the Go converter, and its corrected variant |

Behaviour of the code worth noting:
- **Whitespace-only cells.** The Python converter writes a record with empty text for a whitespace-only cell. It does not drop it.
- **Request line.** It must contain at least two spaces (`split(' ', 2)`). The third field may hold further spaces.
- **Empty body.** An empty body is not passed to curl, just like an absent one.
- **Go identifiers.** They contain dashes: they are the first 24 characters of the canonical UUID form.
- **Go separator.** The Go converter can write two separators after its last record (see Findings).

## Model

| member | source | states |
|---|---|---|
| HttpReplay.ExtractRequests | python/http_replay.py:50-57 | every replayed payload contains both `HTTP` and `GET`, and there are no more of them than packets; ExtractionIsOrderedFilter states which ones they are |
| HttpReplay.ExtractionIsOrderedFilter | python/http_replay.py:50-55 | the replayed payloads are exactly the qualifying packets, in capture order, at strictly increasing positions that cover every qualifying packet |
| HttpReplay.ReplayHttpRequests | python/http_replay.py:59-68 | the replay gives up exactly when no packet qualifies; otherwise its trace is `Passes(count)` passes over the commands of the extracted requests |
| HttpReplay.Replay | python/http_replay.py:66-112 | the two nested loops produce exactly the schedule trace |
| HttpReplay.ReplayPass | python/http_replay.py:68-112 | one pass of the inner loop produces the pass's events for all requests |
| HttpReplay.ReplayOne | python/http_replay.py:69-112 | one iteration yields one or two events: a dispatch exactly when the request line has two spaces and `subprocess.run` does not raise before curl runs, carrying the request's command; otherwise a single skip whose reason is the malformed request line when it has fewer than two spaces, and curl not starting otherwise; a second event, a pause, exactly after a dispatch whose `subprocess.run` did not raise after sending and whose request is not the last |
| HttpReplay.BuildCommand | python/http_replay.py:71-100 | there is no command exactly when the request line has fewer than two spaces; otherwise the command starts `curl -X` with the space-free text before the first space and the URL of the space-free text between the first two, continues with one `-H` pair per parsed header in dictionary order, and contains `-d` after the URL exactly when the request has a non-empty body, which then ends the command |
| HttpReplay.PassEventsWithin | python/http_replay.py:68 | the events of a pass prefix belong to that pass and to the requests seen so far |
| HttpReplay.PassEventsOrder | python/http_replay.py:68 | within a pass, dispatches and skips follow list order |
| HttpReplay.PassEventsPauses | python/http_replay.py:103-112 | within a pass, every pause directly follows a dispatch of a request other than the last whose `subprocess.run` did not raise, and every such dispatch is directly followed by a pause |
| HttpReplay.FullPassEnd | python/http_replay.py:107-108 | a complete pass never ends with a pause |
| HttpReplay.ScheduleInOrder | python/http_replay.py:66-68 | over all passes, dispatches and skips come in strictly increasing (pass, index) order |
| HttpReplay.SchedulePauses | python/http_replay.py:66-112 | pauses sit exactly after dispatches of non-last requests whose `subprocess.run` did not raise, and the trace neither starts nor ends with one, so no pause falls between passes |
| HttpReplay.PassEventsMembers | python/http_replay.py:68-112 | a dispatch or skip is in a pass prefix exactly when it is the attempt event of one of its indices |
| HttpReplay.ScheduleMembers | python/http_replay.py:66-112 | every attempt of every pass appears in the trace, and nothing else does |
| HttpReplay.DispatchedExactly | python/http_replay.py:69-112 | request j is dispatched in pass p exactly when it parses and `subprocess.run` does not raise before curl runs, with the argv built from it; a raise after sending still counts as a dispatch |
| HttpReplay.RaisedNotPaused | python/http_replay.py:103-112 | when `subprocess.run` raises after curl has sent a request (its output not decoding as text, say), the dispatch is not followed by a pause, even if more requests follow |
| HttpReplay.SkippedExactly | python/http_replay.py:69-112 | request j is skipped as malformed in pass p exactly when its request line has fewer than three fields |
| HttpReplay.NoPassNoEvent | python/http_replay.py:66 | a count of zero or less replays nothing |
| HttpRequest.Lookup | python/http_replay.py:82 | a dictionary lookup succeeds exactly for a stored key, and returns a value stored under it |
| HttpRequest.Put | python/http_replay.py:82 | storing keeps the key order, appending the key only when it is new |
| HttpRequest.PutLookup | python/http_replay.py:82 | after storing, the key maps to the new value and every other key is unchanged |
| HttpRequest.PutDistinct | python/http_replay.py:82 | storing never duplicates a key |
| HttpRequest.BlankIsStrippedEmpty | python/http_replay.py:78 | `not line.strip()` holds exactly for whitespace-only lines |
| HttpRequest.Section | python/http_replay.py:77-79 | the header section is the longest prefix of non-blank lines, and a blank line follows it when the section ends early |
| HttpRequest.HeaderField | python/http_replay.py:80-82 | a line gives a header exactly when it contains a colon |
| HttpRequest.HeaderFieldAtFirstColon | python/http_replay.py:81-82 | name and value are the stripped text before and after the first colon |
| HttpRequest.ScanLookup | python/http_replay.py:77-82 | after the loop, a name maps to the value of its last line in the header section, or else to its earlier value |
| HttpRequest.ScanDistinct | python/http_replay.py:77-82 | the loop keeps names unique |
| HttpRequest.LastValueNamed | python/http_replay.py:77-82 | a name has a last value exactly when some header line carries that name |
| HttpRequest.ParsedHeaders | python/http_replay.py:73-82 | the parsed dictionary maps each name to its last value in the section and holds no other names; each name appears once, and the names come in the order of their first appearance in the section |
| HttpRequest.ScanKeys | python/http_replay.py:77-82 | the loop's dictionary lists the names already present, then each new field name of the header section at its first appearance |
| HttpRequest.AddNew | python/http_replay.py:82 | repeated stores keep the existing keys as a prefix and end with exactly the keys present before or stored since |
| HttpRequest.Lines | python/http_replay.py:71 | splitting on CRLF gives at least one line; RequestLineIsFirstLine states which text is the request line |
| HttpRequest.RequestLineIsFirstLine | python/http_replay.py:71-72 | the request line is the text before the first CRLF, or all of it |
| HttpRequest.Body | python/http_replay.py:85-86 | a body is present exactly when the request contains `\r\n\r\n` |
| HttpRequest.BodyAfterFirstEmptyLine | python/http_replay.py:85-86 | the body is everything after the first `\r\n\r\n` and may be empty |
| HttpRequest.ParseRequest | python/http_replay.py:71-86 | parsing fails exactly when the request line splits into fewer than three parts |
| HttpRequest.ParseRequestFields | python/http_replay.py:71-72 | parsing fails exactly when the request line has fewer than two spaces; otherwise method and path are space-free and begin the line |
| HttpRequest.RequestLineFields | python/http_replay.py:72 | the first two of three split fields are space-free and, with their spaces, prefix the line |
| HttpRequest.ParseRequestLine | python/http_replay.py:71-86 | a request line of method, path and rest parses to that method and path, with the parsed headers and body |
| HttpRequest.FullUrl | python/http_replay.py:89 | the URL is at least as long as the path; FullUrlShape states its exact shape |
| HttpRequest.FullUrlShape | python/http_replay.py:89 | the URL is a prefix of the target with its trailing slashes removed, followed by the path |
| HttpRequest.FullUrlDropsSlashes | python/http_replay.py:89 | any number of trailing slashes on the target is dropped |
| HttpRequest.HeaderArgs | python/http_replay.py:97-98 | two arguments per header; HeaderArgsLayout states what they are |
| HttpRequest.HeaderArgsLayout | python/http_replay.py:97-98 | header k becomes `-H` and `"k: v"` at positions 2k and 2k+1, in dictionary order |
| HttpRequest.CurlArgv | python/http_replay.py:96-100 | the argv length is 4, plus two per header, plus two when the body is sent; CurlArgvLayout states the contents |
| HttpRequest.CurlArgvLayout | python/http_replay.py:96-100 | the argv starts `curl -X method url`, has the header pairs in order, and ends with `-d body` when the body is present and non-empty |
| HttpRequest.CurlDataFlag | python/http_replay.py:99-100 | `-d` appears after the URL exactly when the body is present and non-empty |
| HttpRequest.HeaderLineIsNotFlag | python/http_replay.py:97-100 | no header argument `"k: v"` can be mistaken for the `-d` flag |
| Text.IndexOf | python/http_replay.py:85 | the offset found is the first occurrence of the pattern, and none is found only when it does not occur |
| Text.Split | python/http_replay.py:71-72 | `str.split` gives at least one part, at most maxsplit+1 parts, and joining them gives the text back |
| Text.SplitPieces | python/http_replay.py:71-72 | every part but the last is free of the separator, and so is the last when the limit is not reached |
| Text.SplitCharCount | python/http_replay.py:72 | splitting on a character with a limit gives min(limit, occurrences) + 1 parts |
| Text.SplitJoinChar | python/http_replay.py:71 | splitting undoes joining when no part contains the separator |
| Text.SplitTwoFields | python/http_replay.py:72 | `split(' ', 2)` of a line made of two space-free fields, each followed by a space, and a rest gives exactly those three parts |
| Text.RStrip | python/http_replay.py:89 | `rstrip(c)` removes exactly the trailing run of c |
| Text.IntToDecimal | go/excel_to_gor.go:74 | the decimal form of a timestamp is non-empty and holds no space or newline, so the metadata line keeps its four fields |
| Text.IntDecimalRoundTrip | python/excel_to_gor.py:54 | the decimal form of a timestamp reads back to the same integer |
| Whitespace.Trim | python/excel_to_gor.py:57 | stripping yields an empty text exactly for whitespace-only input, and otherwise neither end of the result is whitespace |
| Whitespace.TrimIsInfix | go/excel_to_gor.go:65-69 | trimming removes whitespace at the two ends and nothing else |
| Whitespace.TrimPadded | go/excel_to_gor.go:65-69 | trimming a whitespace-padded core gives back the core |
| RequestId.Version4 | go/excel_to_gor.go:18 | a version 4 UUID sets the version nibble and variant bits and keeps every other bit |
| RequestId.GoRequestId | go/excel_to_gor.go:18 | the Go identifier is 24 characters: four hex groups, each followed by a dash, with version digit 4 and variant digit 8, 9, a or b |
| RequestId.GoPrefixLayout | go/excel_to_gor.go:18 | the first 24 characters of the canonical form are the first four hex groups with their dashes |
| RequestId.PyRequestId | python/excel_to_gor.py:15 | the Python identifier is 24 lower-case hex digits with version digit 4 at index 12 |
| RequestId.PyPrefixLayout | python/excel_to_gor.py:15 | the first 24 hex digits of a version 4 UUID are hex, with the version and variant digits in place |
| RequestId.GoIdIsDashedPyId | go/excel_to_gor.go:18 | the Go identifier without its dashes is the first 20 digits of the Python identifier from the same bytes |
| GorFormat.Block | python/excel_to_gor.py:54-57 | a record block is non-empty and ends with a newline |
| GorFormat.MetaLineFields | python/excel_to_gor.py:54 | the metadata line is the fields `1`, identifier, timestamp and `0` joined by single spaces |
| GorFormat.MetaLineRoundTrip | python/excel_to_gor.py:54 | the metadata line reads back to its identifier and timestamp |
| GorFormat.BlockRoundTrip | python/excel_to_gor.py:54-57 | a block reads back to its record |
| GorFormat.TerminatedAppend | python/excel_to_gor.py:46-61 | a terminated stream grows by one block and one separator |
| GorFormat.WrittenPrefix | python/excel_to_gor.py:59-61 | before the last block, every block the loop has written already has its separator |
| GorFormat.WrittenStream | python/excel_to_gor.py:46-62 | the loop and the final write leave every block followed by exactly one separator, or a lone separator when there is no block |
| GorFormat.SplitTerminated | python/excel_to_gor.py:54-62 | splitting a terminated stream on the separator gives its blocks back, in order |
| GorFormat.SplitStream | python/excel_to_gor.py:54-62 | a terminated stream splits into its blocks and one empty trailing piece |
| GorFormat.SplitStreamExtraSep | go/excel_to_gor.go:86-97 | a stream with one extra separator splits into its blocks and two empty trailing pieces |
| GorFormat.SplitSeparatorOnly | python/excel_to_gor.py:62 | a lone separator splits into two empty pieces |
| Seqs.FirstIndex | go/excel_to_gor.go:42-53 | the column found holds the name, and none is found only when no header has it |
| Seqs.FirstIndexIsFirst | go/excel_to_gor.go:42-49 | the first matching header is the one chosen |
| Seqs.ChooseAtPositions | python/excel_to_gor.py:41 | the values chosen are exactly those of the accepted elements, in order |
| Seqs.ChooseEmpty | python/excel_to_gor.py:41 | nothing is chosen exactly when no element is accepted |
| ExcelToGorPy.ExtractRequests | python/excel_to_gor.py:36-62 | the converter fails exactly when the column is missing |
| ExcelToGorPy.ExtractedStream | python/excel_to_gor.py:41-62 | the output is one record per present cell, each followed by exactly one separator, or a lone separator when there is none |
| ExcelToGorPy.RecordsOfPresentCells | python/excel_to_gor.py:41-57 | records correspond one to one, in row order, to the non-missing cells, each with the stripped cell as text |
| ExcelToGorPy.BlankCellsKept | python/excel_to_gor.py:41-57 | a record text is empty exactly when its cell is whitespace only, and such a cell still gives a record |
| ExcelToGorPy.PyIdentifiers | python/excel_to_gor.py:48 | every record identifier is 24 lower-case hex digits |
| ExcelToGorPy.SplitOutput | python/excel_to_gor.py:54-62 | splitting the output on the separator gives the record blocks in order and one empty trailing piece |
| ExcelToGorGo.CellText | go/excel_to_gor.go:65-69 | a row is kept exactly when it reaches the column and the cell is not blank, and the text is the trimmed cell |
| ExcelToGorGo.ExtractRequests | go/excel_to_gor.go:41-53 | the converter fails on a sheet without rows, and fails for a missing column exactly when the header row lacks the name |
| ExcelToGorGo.EmittedCount | go/excel_to_gor.go:63-93 | the count is the number of rows kept so far |
| ExcelToGorGo.EmittedPrefix | go/excel_to_gor.go:64-93 | before the last data row, every kept row's block has its separator |
| ExcelToGorGo.EmittedStream | go/excel_to_gor.go:64-97 | after the final write every block has a separator, and one more follows unless the last data row was kept |
| ExcelToGorGo.ExtractedStream | go/excel_to_gor.go:41-102 | the output is the kept rows' records, each with a separator, plus a second one unless the last data row was kept; the count is the number of records |
| ExcelToGorGo.NothingKept | go/excel_to_gor.go:97-102 | with no kept row the output is a lone separator and the count is zero |
| ExcelToGorGo.KeptRows | go/excel_to_gor.go:64-69 | the kept texts are exactly the trimmed non-blank cells of long-enough rows, in row order |
| ExcelToGorGo.GoIdentifiers | go/excel_to_gor.go:72 | every record identifier is 24 characters with dashes at 8, 13 and 18 |
| ExcelToGorGo.SkippedLastRowDoublesSeparator | go/excel_to_gor.go:86-97 | when the last data row is skipped, reading the output back yields two empty trailing pieces |
| ExcelToGorGo.TrailingBlankRow | go/excel_to_gor.go:86-97 | a request row followed by a blank row gives the record and two separators |
| ExcelToGorGo.KeptThenSkipped | go/excel_to_gor.go:86-97 | a kept row followed by a skipped row gives the record and two separators |
| ExcelToGorGo.ExtractRequestsIntended | go/excel_to_gor.go:41-53 | the corrected converter fails in the same cases as the original |
| ExcelToGorGo.IntendedStream | go/excel_to_gor.go:86-97 | corrected, every record is followed by exactly one separator, the count is unchanged, and the output splits into the blocks and one empty piece |

## Left out

- Packet capture and reading (`rdpcap`, `haslayer`, the UTF-8 decode, tshark): a packet is given as its decoded payload, or `None` when it has no raw layer. The model assumes decoding never raises, since `errors='ignore'` is used.
- The status HTTP server, its thread, and argument parsing and `main` in all three scripts: these are I/O.
- Running curl: for each attempt the model records only whether `subprocess.run` raises before curl runs (`unstarted`, nothing is sent) or after curl has sent the request (`raisedAfter`, e.g. output that does not decode as text). Either raise skips the status print and the pause. Curl's exit status and output are not modelled; they do not affect control flow.
- The pause length (`delay`, a float): only the positions of pauses are modelled.
- Printing: none of the messages the scripts print are modelled.
- The outer `except` of `replay_http_requests` (an unreadable capture file, say): not modelled.
- Spreadsheet reading (pandas, excelize) and file creation: a sheet is given as header row and cell rows, and the output as a returned string.
- Write errors: the Go converter's error returns after a failed write (lines 75-90, 98-100) and its open and read errors are not modelled.
- Identifiers and timestamps: they come from parameter functions indexed by record number, in place of the random source and the clock. A timestamp is any integer: the int64 range of `UnixNano` and the float product in `get_timestamp` are not modelled.
- pandas specifics: `astype(str)` formatting of non-text cells and the renaming of duplicate column names are not modelled. Cells are given as text, and the first column with the name is used.
- Which cells pandas reads as missing: by default an empty cell and texts such as `NA`, `N/A`, `null` or `nan`. The reader's decision is an input: a cell is `None` when the reader returns NaN for it.
- The Python converter's `except Exception` path, which returns `False`, is not modelled. The exit on a missing column is the `ColumnNotFound` failure.
- ExcelToGorGo.ExtractRequests: the panic on a sheet without rows is modelled as the `EmptySheet` failure rather than a crash.

## Findings

| source | as written | input that shows it | evidently intended | confidence | as-written member | corrected member |
|---|---|---|---|---|---|---|
| go/excel_to_gor.go:86 | the in-loop separator test uses the row's index among all data rows, so a record followed only by skipped rows gets a separator in the loop and another from the final write | header `http`, data rows `GET` and `" "`: the output is the record followed by two separators, and reading it back gives an extra empty piece | a separator after every record except the last kept one, then the final separator, so each record is followed by exactly one, as in the Python converter | not executed | ExcelToGorGo.SkippedLastRowDoublesSeparator | ExcelToGorGo.IntendedStream |
