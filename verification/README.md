# datacollector: a Dafny model of `DataCollector`

`data_collector.py` keeps a local sqlite table, `record`, in step with a
knowledge-base server. A run has three stages:

- `sync_records` pulls the group's records from the server and upserts them by `id`.
- `process_content` walks every row. It follows the row's `reference`:
  - a local file,
  - a `URL,selector` pair, whose selected element's text is used,
  - or a bare URL.

  Content that has not changed since the row's `updated_at` is skipped. The
  rest is classified by content type and magic bytes and converted to text
  (MarkItDown, through a temp file). The outcome is written back: new text,
  its SHA-1 and `update_flg = 1`, or a message in `error`.
- `update_records` posts the flagged rows back to the server.

The model is five modules:

| module | file | what it holds |
|---|---|---|
| `StringOps` | `string_ops.dfy` | The Python string operations the collector relies on: `in`, `startswith`, `lower`, `strip`, `split(',', 1)`, `rfind`. |
| `FileTypes` | `file_types.dfy` | The `FILE_TYPES` registry and the pure classifiers `detect_file_type`, `check_content_type` and `detect_file_extension`, plus the temp-file name of `save_temp_file`. |
| `Timestamps` | `timestamps.dfy` | The two `strptime` formats: the row's `updated_at` and the IMF-fixdate of `Last-Modified` (section 7.1.1.1 of RFC 7231). Also the order in which naive datetimes compare. |
| `Paths` | `paths.dfy` | `os.path.splitext` and the seven-entry extension → content-type table of the local-file branch. |
| `Collector` | `collector.dfy` | The `DataCollector` class: the table, the temp files on disk, and the methods `SyncRecords`, `ConvertContent`, `ProcessContent` and its three branches. |

**The collector is imperative, so it is a class.** Its state is:

- the table: rows by `id` plus their insertion order, which is the order `SELECT *` returns them in;
- the set of temp files on disk.

Each method is proved against a specification function. `SyncRecords` is proved against `PullAll`. `ConvertContent` is proved against `Convert`. Each branch method is proved against its `…Step` function, and `ProcessContent` against `Run`. `Run` is a fold of `RecordStep` over the rows read at the start, carrying `markdown_text` from one record to the next, as the Python loop does.

**Everything outside the process is an oracle field of `Env`:**

- the paths that exist, with their mtimes and bytes, or the errors that reading those raises;
- `requests.head` and `requests.get`;
- `select_one` and `get_text`;
- MarkItDown;
- lenient UTF-8 decoding;
- SHA-1;
- the clock reading used in temp-file names.

Methods take `Env` as a parameter.

## Behaviour as written

The model follows the code where the code and the system's stated design part ways. Each point below is proved.

- **A claimed content type always beats the magic bytes** (`ClaimBeatsContent`). The `text/plain` fallback never decides, because the registry already claims any content type that contains `text/plain` (`TextPlainFallbackUnreachable`).
- **OLE2 and ZIP headers always classify as Word** (`ContainerIsWord`, `MagicNeverExcelOrPowerPoint`). Word comes first in the table.
- **`detect_file_extension` is never called.** `save_temp_file` names every Word payload `.doc`, even a `.docx` (`DocxSavedAsDoc`, `LocalDocxConvertedAsDoc`). The text MarkItDown makes of that `.doc` file is what the row stores (`LocalDocxStored`). The resolver is modelled anyway:
  - `ZipTypesResolve` and `Ole2TypesResolve` give its results;
  - `VndMsWordHasNoExtension` gives a type it resolves to nothing;
  - `ExtensionByMarker` gives it for every input, and `ExtensionIsCaseSensitive` shows that, unlike the classifier, it does not lower the content type.
- **The three macro-enabled registry strings never match** (`MacroEnabledNeverMatch`). They contain an upper-case `E`, and they are compared with a lowered content type.
- **`update_flg` is never cleared.** No code path sets it back to 0 (`RunKeepsMarks`, `PullKeepsStatus`).
- **A selector that finds nothing is not a failure.** The loop falls through to the shared write with `markdown_text` as a previous record left it, or it fails with `UnboundLocalError` (`SelectorMissReusesCarried`).
- **Selected text is a `str`, so only a `text` claim can convert it** (`SelectedTextConvertsOnlyAsText`):
  - any other claimed kind fails in `f.write` and leaves its temp file on disk;
  - with no claim, the magic stage fails on `str.startswith(bytes)`.
- **A failed MarkItDown conversion writes a `NameError` message.** The inner `except` names the unbound module `markitdown`. `process_content` then overwrites that message with its own conversion-failed message (`BinaryConversionUsesMarkItDown`, `ErrorOverwrites`).
- **The local-file branch writes the converted text twice.** The second write changes nothing (`StoreIdempotent`, used by `ConvertLocalFile`).
- **Lines 546-563 are unreachable.** The path already failed `os.path.exists` at line 396 (`MissingFileReported`).
- **An existing path is checked for freshness before it is opened.** A directory named by a row with text and an older mtime gets the up-to-date message; otherwise opening it raises and the error is recorded (`UnreadablePath`). A failing `getmtime` is recorded before `updated_at` is parsed (`LocalStatFailureRaises`).
- **`updated_at` is parsed before the local branch looks at the text.** So a malformed `updated_at` blocks the conversion even of a row without text (`LocalNeedsRecordTime`). The URL branch parses the dates only when both the text and `Last-Modified` are present (`UrlWithoutTextIgnoresDates`).

## Model

| member | source | states |
|---|---|---|
| StringOps.Lower | data_collector.py:242 | `str.lower()` keeps the length, maps each upper-case letter to its lower-case one and keeps every other character, so no upper-case letter is left |
| StringOps.LowerIdentifiesCase | data_collector.py:242 | two strings lower to the same string iff they differ only in the case of letters |
| StringOps.SplitFirst | data_collector.py:450 | `split(',', 1)`: the part before the separator holds no separator, and the parts rebuild the string |
| StringOps.StripLeft | data_collector.py:454 | removes exactly the leading whitespace: a suffix whose cut-off part is all whitespace and which starts with none |
| StringOps.StripRight | data_collector.py:454 | removes exactly the trailing whitespace: a prefix whose cut-off part is all whitespace and which ends with none |
| StringOps.Strip | data_collector.py:454 | `strip()` returns a slice of the string with only whitespace around it and none at either end; it is empty iff the string is all whitespace |
| StringOps.LastIndexOf | data_collector.py:416 | `rfind`: -1 when absent, otherwise an index of the element with none after it |
| StringOps.IndexOf | data_collector.py:450 | `find`: -1 when absent, otherwise an index of the element with none before it |
| FileTypes.Registry | data_collector.py:24-104 | the `content_types` lists: at least two types per kind, all under `text/` or `application/`, and `text/plain` first for text |
| FileTypes.Extensions | data_collector.py:24-104 | the `extensions` lists: non-empty, each entry a dot and at least one more character, two per Office kind |
| FileTypes.MagicNumbers | data_collector.py:24-104 | the `magic_numbers` lists: each entry non-empty and at most 32 bytes; only text has none |
| FileTypes.DetectFileType | data_collector.py:233-259 | a detected kind is claimed by the lowered content type or has a magic number at the head of the bytes; raising on the magic stage happens only for text; undetected means bytes with no claim and no magic match |
| FileTypes.CheckContentType | data_collector.py:359-375 | true iff the content type is non-empty and some kind has a registry string inside its lowered form |
| FileTypes.FirstKind | data_collector.py:241-244 | the table search returns a kind that passes the test, no earlier kind passes it, and `None` only when no kind passes it |
| FileTypes.ClaimedKind | data_collector.py:240-244 | the content-type stage returns a kind with a registry string inside the lowered type, and nothing only when no kind has one (the first-claim iff is `ClaimedKindIsFirstClaim`) |
| FileTypes.Head | data_collector.py:252 | `content[:32]` is a prefix of the content, of length min(32, len) |
| FileTypes.MagicKind | data_collector.py:252-256 | the magic stage returns a kind with a magic number starting `content[:32]`, and nothing only when no kind has one (the first-match iff is `MagicKindIsFirstMatch`) |
| FileTypes.ClaimedKindIsFirstClaim | data_collector.py:240-244 | the content-type stage returns k iff k has a registry string inside the lowered type and no earlier kind has one |
| FileTypes.ClaimedKindNone | data_collector.py:240-244 | the content-type stage returns nothing iff no kind has a registry string inside the lowered type |
| FileTypes.MagicKindIsFirstMatch | data_collector.py:252-256 | the magic stage returns k iff a magic number of k starts the first 32 bytes and none of an earlier kind does |
| FileTypes.CheckAgreesWithDetector | data_collector.py:359-375 | `check_content_type` is true iff the type is non-empty and the detector's content-type stage finds a kind |
| FileTypes.TextPlainFallbackUnreachable | data_collector.py:247-249 | any type containing `text/plain` is already claimed, so the fallback never decides |
| FileTypes.ClaimBeatsContent | data_collector.py:240-244 | a claimed kind is the result whatever the content is |
| FileTypes.UnclaimedUsesMagic | data_collector.py:252-259 | without a claim, text raises in the magic stage and bytes get the first magic match or nothing |
| FileTypes.HeadKeepsMagic | data_collector.py:252-254 | a magic number of at most 32 bytes that starts the content also starts `content[:32]` |
| FileTypes.HtmlMagicStartsWithAngle | data_collector.py:31-35 | every HTML magic number starts with `<` |
| FileTypes.PdfSignatureIsPdf | data_collector.py:45-53 | content starting with `%PDF` is detected as pdf by magic |
| FileTypes.ContainerIsWord | data_collector.py:55-66 | an OLE2 or ZIP header is always detected as word |
| FileTypes.MagicNeverExcelOrPowerPoint | data_collector.py:72-98 | the magic stage never yields excel or powerpoint |
| FileTypes.OctetStreamUnclaimed | data_collector.py:425 | `application/octet-stream` claims no kind and fails `check_content_type` |
| FileTypes.MacroEnabledNeverMatch | data_collector.py:60-92 | the macro-enabled types of word, excel and powerpoint never occur in a lowered content type |
| FileTypes.MsWordIsWord | data_collector.py:57 | `application/msword` classifies as word |
| FileTypes.DocxTypeIsWord | data_collector.py:58 | the wordprocessingml type classifies as word |
| FileTypes.MsExcelIsExcel | data_collector.py:74 | `application/vnd.ms-excel` classifies as excel |
| FileTypes.XlsxTypeIsExcel | data_collector.py:75 | the spreadsheetml type classifies as excel |
| FileTypes.MsPowerPointIsPowerPoint | data_collector.py:90 | `application/vnd.ms-powerpoint` classifies as powerpoint |
| FileTypes.PptxTypeIsPowerPoint | data_collector.py:91 | the presentationml type classifies as powerpoint |
| FileTypes.TextPlainIsText | data_collector.py:39 | `text/plain` classifies as text |
| FileTypes.DetectFileExtension | data_collector.py:261-283 | a result needs a ZIP or OLE2 header and is an office extension: the modern one for ZIP, the legacy one for OLE2; no content type gives none |
| FileTypes.Marker | data_collector.py:266-281 | each Office kind's marker is a non-empty string without `/` that holds a lower-case `m` |
| FileTypes.MarkedKind | data_collector.py:266-281 | a marked kind is an Office kind whose marker occurs, unlowered, in the content type |
| FileTypes.ExtensionByMarker | data_collector.py:261-283 | for every payload and content type, the result is none without a container header or content type, and otherwise the extension of the first Office kind whose marker occurs, in the container's family, or none when no marker occurs |
| FileTypes.ExtensionIsCaseSensitive | data_collector.py:266-281 | a content type without lower-case letters never yields an extension |
| FileTypes.UpperCaseMarkerIgnored | data_collector.py:266-269 | `WORDPROCESSINGML` gives no extension for a ZIP payload, while `wordprocessingml` gives `.docx` |
| FileTypes.DetectIgnoresCase | data_collector.py:240-244 | content types that differ only in letter case claim the same kind, pass `check_content_type` alike and detect alike for every payload |
| FileTypes.PdfTypeIsPdf | data_collector.py:45-46 | `application/pdf` claims pdf |
| FileTypes.UpperCasePdfTypeIsPdf | data_collector.py:240-244 | `APPLICATION/PDF` claims pdf too |
| FileTypes.DocxResolves | data_collector.py:266-269 | ZIP plus the wordprocessingml type resolves to `.docx` |
| FileTypes.XlsxResolves | data_collector.py:270-271 | ZIP plus the spreadsheetml type resolves to `.xlsx` |
| FileTypes.PptxResolves | data_collector.py:272-273 | ZIP plus the presentationml type resolves to `.pptx`, because it has neither earlier marker |
| FileTypes.ZipTypesResolve | data_collector.py:266-273 | for each office kind, ZIP plus its modern type resolves to its modern extension |
| FileTypes.DocResolves | data_collector.py:274-277 | OLE2 plus `application/msword` resolves to `.doc` |
| FileTypes.XlsResolves | data_collector.py:278-279 | OLE2 plus `application/vnd.ms-excel` resolves to `.xls` |
| FileTypes.PptResolves | data_collector.py:280-281 | OLE2 plus `application/vnd.ms-powerpoint` resolves to `.ppt` |
| FileTypes.Ole2TypesResolve | data_collector.py:274-281 | for each office kind, OLE2 plus its legacy type resolves to its legacy extension |
| FileTypes.VndMsWordHasNoExtension | data_collector.py:274-283 | `application/vnd.ms-word` is a word type, yet with OLE2 it resolves to no extension |
| FileTypes.TempFileName | data_collector.py:289-290 | the temp name starts with `temp_` and ends with the kind's first extension |
| FileTypes.DocxSavedAsDoc | data_collector.py:289-290 | a ZIP Word document whose container resolves to `.docx` is still saved as `temp_<stamp>.doc` |
| Timestamps.NotAfter | data_collector.py:401 | datetime `<=` compares year, month, day, hour, minute, second and microsecond in turn; its order properties are `NotAfterIsTotalOrder` |
| Timestamps.NotAfterIsTotalOrder | data_collector.py:401 | datetime `<=` is reflexive, total, antisymmetric and transitive |
| Timestamps.FractionIsLater | data_collector.py:398-401 | a file time with a fraction of a second is later than the whole second it falls in |
| Timestamps.ParseRecordTime | data_collector.py:399 | a parsed record time is a valid datetime with no fraction |
| Timestamps.RecordTimeRoundTrip | data_collector.py:399 | every whole-second datetime written in the record format parses back to itself |
| Timestamps.RecordTimeCanonical | data_collector.py:399 | every string the parser accepts is the formatting of what it parses to |
| Timestamps.RecordTimeExample | data_collector.py:484 | `2020-01-01 00:00:00` parses to midnight, 1 January 2020 |
| Timestamps.ParseHttpDate | data_collector.py:481-483 | a parsed `Last-Modified` is a valid datetime with no fraction |
| Timestamps.HttpDateRoundTrip | data_collector.py:481-483 | every whole-second datetime written as an IMF-fixdate, with any day name, parses back to itself |
| Timestamps.HttpDateIgnoresCase | data_collector.py:481-483 | day names, month names and `GMT` parse in any case |
| Timestamps.HttpDateExample | data_collector.py:481-483 | `Tue, 01 Jan 2019 00:00:00 GMT` parses to midnight, 1 January 2019 |
| Paths.Extension | data_collector.py:416 | `splitext` gives nothing, or a suffix that starts with the only dot in it and holds no `/` |
| Paths.ExtensionOfFileName | data_collector.py:416 | a file name whose stem is not all dots has the text from its last dot as extension |
| Paths.DotFileHasNoExtension | data_collector.py:416 | a dot file without another dot has no extension |
| Paths.ExtensionContentType | data_collector.py:417-425 | the default `application/octet-stream` comes back iff the extension is not in the table |
| Paths.LocalContentType | data_collector.py:416-425 | a path whose lowered extension is unlisted gets a content type that claims no kind and fails `check_content_type` |
| Paths.TableEntries | data_collector.py:417-425 | the seven extensions map to the registry's first two types of each office kind and to `text/plain` |
| Paths.TableTypesClassify | data_collector.py:417-425 | each of the seven mapped types classifies as its kind, whatever the content |
| Paths.UnlistedExtensionUsesMagic | data_collector.py:425 | any other extension leaves the decision to the magic stage |
| Paths.PdfFileByMagic | data_collector.py:425 | a local `.pdf` file with a `%PDF` header is detected as pdf |
| Paths.UnlistedContainerIsWord | data_collector.py:425 | a file with an OLE2 or ZIP header and an unlisted extension is taken for word |
| Collector.Rows | data_collector.py:379-380 | `SELECT *` returns one row per id, in insertion order, with that id's record |
| Collector.SetError | data_collector.py:582-585 | updating `error` never adds or removes a row |
| Collector.SetText | data_collector.py:567-575 | updating text, hash and flag never adds or removes a row |
| Collector.Upsert | data_collector.py:201-226 | keeps the table well formed and other rows unchanged; the row holds every server column, with `update_flg` and `error` kept or at their defaults; an update keeps the row order and an insert appends the id |
| Collector.PullAll | data_collector.py:197-226 | the upserts keep the table well formed, drop no row and never reorder the rows that were there |
| Collector.Fingerprint | data_collector.py:198 | the synced hash is the SHA-1 of a non-empty text, the same as the pass writes, and empty for an empty text |
| Collector.PullAllStep | data_collector.py:197 | one more record in the list is one more upsert, after the earlier ones |
| Collector.PullKeys | data_collector.py:197-226 | afterwards the rows are exactly the old rows and the incoming ids |
| Collector.PullLastWins | data_collector.py:204-215 | the last incoming record with an id decides every server column of that row, including the fingerprint |
| Collector.PullKeepsStatus | data_collector.py:206-225 | the sync never touches `update_flg` or `error`; new rows start unmarked and without error |
| Collector.FreshPullIsClean | data_collector.py:218-226 | a sync into the fresh table marks no row and sets no error |
| Collector.Converted | data_collector.py:429-444 | a conversion's end stores its text and carries it as `markdown_text`, or records the error and carries the old value; never a skip |
| Collector.FallThrough | data_collector.py:565-578 | the shared write stores `markdown_text` when it is bound, fails as unbound otherwise, and never changes it or skips |
| Collector.LocalStep | data_collector.py:396-446 | the file branch changes `markdown_text` only to a text it stores and never leaves a temp file behind |
| Collector.SelectorStep | data_collector.py:448-465 | the selector branch changes `markdown_text` only to a text it stores and never removes a temp file |
| Collector.DownloadStep | data_collector.py:498-535 | the tail of the URL branch changes `markdown_text` only to a text it stores and never leaves a temp file behind |
| Collector.UrlStep | data_collector.py:466-535 | the URL branch changes `markdown_text` only to a text it stores and never leaves a temp file behind |
| Collector.RecordStep | data_collector.py:391-590 | a row is skipped iff its reference is empty; `markdown_text` changes only to a stored text; a temp file stays behind only on the selector branch |
| Collector.IsWebAddress | data_collector.py:448 | a reference counts as a web address iff it starts with `http` in any letter case |
| Collector.Convert | data_collector.py:298-357 | `text` iff no error; undetected content writes the format error and makes no temp file; text kind returns the decoded content and makes no temp file; bytes never leak their temp file; a temp file is named for a non-text detected kind |
| Collector.Apply | data_collector.py:565-590 | a row write never adds or removes a row |
| Collector.Run | data_collector.py:383-590 | the pass over the rows never adds or removes a row |
| Collector.ErrorOverwrites | data_collector.py:580-586 | a second error message replaces the one `convert_content` wrote |
| Collector.StoreIdempotent | data_collector.py:435-444 | writing the same text twice is writing it once |
| Collector.ApplyKeepsDirtyHashed | data_collector.py:567-576 | each write keeps `update_flg = 1 ⇒ hash = SHA1(text)` |
| Collector.RunKeepsDirtyHashed | data_collector.py:383-590 | the whole pass keeps `update_flg = 1 ⇒ hash = SHA1(text)` |
| Collector.NextChangesOwnRow | data_collector.py:580-586 | a record changes only its own row; either only `error` changes, or text, hash and flag change together with the flag set and the hash of the text |
| Collector.EmptyReferenceRowsUntouched | data_collector.py:391-393 | a row whose reference is empty leaves the pass exactly as it entered |
| Collector.RunKeepsMarks | data_collector.py:567-576 | the pass never clears `update_flg` |
| Collector.EmptyReferenceSkipped | data_collector.py:391-393 | an empty reference writes nothing, makes no temp file and keeps `markdown_text` |
| Collector.ExistingPathWins | data_collector.py:396 | an existing path takes the file branch even if it looks like a URL, and the network does not affect it |
| Collector.MissingFileReported | data_collector.py:536-544 | a non-file reference that does not start with `http` writes the missing-file message and converts nothing |
| Collector.SplitAtFirstComma | data_collector.py:450 | the URL is the text before the first comma, the selector everything after it |
| Collector.CommaMeansSelection | data_collector.py:448 | a web address with a comma always takes the selector branch |
| Collector.BareUrlTakesUrlStep | data_collector.py:466-467 | a reference that is no existing path, has no comma and starts with `http` in any case takes the bare-URL branch |
| Collector.LocalStatFailureRaises | data_collector.py:396-399 | a path whose modification time cannot be read records the error raised, before `updated_at` is parsed |
| Collector.LocalFreshnessDecides | data_collector.py:398-428 | for a readable file and a parsed `updated_at`, a row with text and a file not newer gets the up-to-date message; otherwise the bytes are converted under the extension's type |
| Collector.UnreadablePath | data_collector.py:401-413 | a path that cannot be read, such as a directory, still gets the up-to-date message when the row has text and the path is not newer; otherwise the read error is recorded |
| Collector.LocalUpToDate | data_collector.py:401-409 | a row with text whose file is not newer gets only the up-to-date message |
| Collector.SameSecondFileIsConverted | data_collector.py:398-401 | a file modified within the second of `updated_at` is converted again |
| Collector.LocalNeedsRecordTime | data_collector.py:399 | a malformed `updated_at` stops the file branch, even for a row without text |
| Collector.LocalDocxStep | data_collector.py:396-446 | a local `.docx` newer than its row, or with no text in the row, stores what MarkItDown makes of `temp_<stamp>.doc`, removes that file and carries the text as `markdown_text` |
| Collector.LocalDocxStored | data_collector.py:567-576 | the row of such a file then holds that text, its SHA-1 and the upload flag |
| Collector.DocxPathType | data_collector.py:416-425 | a `.docx` path gets the wordprocessingml content type |
| Collector.LocalDocxConvertedAsDoc | data_collector.py:416-428 | a local `.docx` file converts to what MarkItDown makes of `temp_<stamp>.doc`, or to the `NameError` message when it gives nothing, and that file is removed |
| Collector.UrlWithoutTextIgnoresDates | data_collector.py:480-499 | without text the dates are not compared and the download is attempted |
| Collector.UrlFreshnessDecides | data_collector.py:480-499 | for a row with text and both dates parsed, the page is downloaded iff it is strictly newer than the row; otherwise only the up-to-date message is written |
| Collector.UrlUpToDateExample | data_collector.py:480-495 | a page modified in 2019 is up to date for a row with text updated in 2020 |
| Collector.UnsupportedTypeNeverDownloads | data_collector.py:503-511 | an unsupported `HEAD` type writes its message whatever `GET` would return |
| Collector.GetTypeDecides | data_collector.py:513-532 | once the `HEAD` type is accepted, the `GET` body and its own type are converted |
| Collector.SelectedTextConvertsOnlyAsText | data_collector.py:457-461 | selected text converts iff the page type claims text; other claims leak their temp file; no claim fails on the magic stage |
| Collector.SelectorMissReusesCarried | data_collector.py:454-465 | a selector miss stores the previous record's `markdown_text`, or fails as unbound when there is none |
| Collector.DataCollector.constructor | data_collector.py:128-180 | the run starts from an empty table and no temp files |
| Collector.DataCollector.WriteError | data_collector.py:582-586 | sets only the row's `error` |
| Collector.DataCollector.WriteText | data_collector.py:567-576 | sets the row's text, hash and flag |
| Collector.DataCollector.UpsertRecord | data_collector.py:197-226 | one pass of the sync loop leaves the table as `Upsert` of that record |
| Collector.DataCollector.SyncRecords | data_collector.py:187-231 | a failed request changes nothing; otherwise the table becomes `PullAll` of the list, proved with a loop invariant |
| Collector.DataCollector.SaveTempFile | data_collector.py:285-296 | the file `temp_<stamp><extensions[0]>` exists afterwards, and the write succeeds only for bytes |
| Collector.DataCollector.ConvertContent | data_collector.py:298-357 | returns, writes and leaves on disk exactly what `Convert` says |
| Collector.DataCollector.FinishRecord | data_collector.py:565-578 | the shared write stores `markdown_text` or fails as unbound |
| Collector.DataCollector.AfterConversion | data_collector.py:429-432 | `None` from the converter writes the conversion-failed message; text goes to the shared write |
| Collector.DataCollector.ConvertRecord | data_collector.py:523-532 | conversion and its aftermath match `Converted(Convert(…))` |
| Collector.DataCollector.ProcessLocalFile | data_collector.py:396-446 | the local branch, with its two writes, has the effect of `LocalStep` |
| Collector.DataCollector.ProcessSelection | data_collector.py:448-465 | the selector branch has the effect of `SelectorStep` |
| Collector.DataCollector.ProcessUrl | data_collector.py:467-535 | the URL branch has the effect of `UrlStep` |
| Collector.DataCollector.Download | data_collector.py:498-535 | the tail of the URL branch has the effect of `DownloadStep`. An unsupported `HEAD` content type or a failed `GET` is recorded as the error. Otherwise the `GET` body is converted under the `GET` response's content type. |
| Collector.DataCollector.ConvertLocalFile | data_collector.py:426-446 | converting a local file and writing its text twice has the effect of one conversion and one write |
| Collector.ConvertOffline | data_collector.py:298-357 | a conversion depends on the converter, the decoder and the clock, never on the HTTP calls |
| Collector.BinaryConversionUsesMarkItDown | data_collector.py:315-357 | bytes detected as a non-text kind convert to exactly what MarkItDown makes of the temp file named for that kind; when it gives nothing, the result is the `NameError` message; the temp file is removed either way |
| Collector.BinaryConversionRemovesTemp | data_collector.py:315-347 | bytes detected as a non-text kind go through a temp file named for that kind, which is removed afterwards |
| Collector.DataCollector.ProcessRecord | data_collector.py:391-590 | one loop body has the effect of `RecordStep` |
| Collector.DataCollector.ProcessContent | data_collector.py:377-595 | the table and temp files end as `Run` over the rows read at the start; the order is unchanged |
| Collector.DataCollector.Collect | data_collector.py:622-632 | on a fresh table, the table and temp files end as `Run` over the rows of `PullAll` of the server's list (none when the request failed), in insertion order; every flagged row then holds the SHA-1 of its text |

## Left out

- All HTTP traffic: the bulk `GET` of `sync_records`, and the `HEAD` and `GET` of `process_content`. Their results are inputs: a `Fetch` value for the sync, `Env.head` and `Env.get` for the pass.
- `update_records` (data_collector.py:597-617): it only reads the flagged rows and posts them, and never changes the table.
- BeautifulSoup parsing and `select_one`: the oracle `Env.select`.
- MarkItDown, SHA-1 and lenient UTF-8 decoding: the oracles `Env.markItDown`, `Env.sha1` and `Env.decode`. Any exception MarkItDown raises is folded into its `None` result, since both end the same way.
- sqlite itself: commits, transactions, type affinity and the unused `deleted` column. The table is a map plus insertion order.
- A sync that fails part-way through the list is not modelled. Examples are a record missing a key, and a JSON `null` `title` or `text`: both columns are `NOT NULL` (data_collector.py:167-168), so the upsert raises. The remaining records are then abandoned, and the commit at line 227 is skipped. Only a failed request is modelled: it leaves the table unchanged.
- `load_config`, logging and `debug_log`, and the renaming of old `data.db` and `log.txt` in `init_database`: process plumbing. The constructor starts from the empty table `init_database` creates.
- The conversion of `os.path.getmtime` to a local-time datetime. `Env.files` gives, for each path `os.path.exists` accepts, directories included, either that datetime or the error raised, and either the bytes read or the error raised. A directory is a path whose read fails.
- JSON `null` for `reference`: the empty string stands for it, as `if not reference` treats them alike. `null` `text` cannot reach the pass (see the partial sync above).
- Collector.Diagnostic, Collector.LocalStep and Collector.UrlStep: every `ValueError` that `strptime` raises for `updated_at` or `Last-Modified` is written as `TimestampMismatch`. That holds for a format mismatch, for unconverted trailing data such as `2020-01-01 00:00:00Z`, and for an out-of-range field such as 30 February, second 60 or year 0. The source stores `str(e)`, whose text differs between these cases; the model keeps only the string and the format.
- JSON `null` for `updated_at`: the column allows `NULL` (data_collector.py:173), and `strptime(None, …)` raises `TypeError`. `updatedAt` is a string in the model, so this case is not represented.
- JSON `null` for `id`: the column is `INTEGER UNIQUE` without `NOT NULL` (data_collector.py:166), so the `INSERT` stores a `NULL` id, and several such rows may exist. Every later write is `WHERE id = ?`, which matches no row for `None`, so what the pass computes for such a row is lost. `Incoming.id` is an integer, so this case is not represented.
- Windows paths: `ntpath`, `\` separators and drive letters are not modelled. Paths.Extension is `posixpath.splitext`.
- `converter_map` and the `extensions` beyond the first: never read.
- Error messages are a datatype, not the Japanese message strings; exception text from the oracles is carried as given.
- fullpath_collector.py is not part of this model.
- StringOps.Lower: maps ASCII letters only; Python's full Unicode case mapping is not modelled.
- Timestamps.ParseRecordTime: accepts only fixed-width ASCII digits. `strptime` also accepts one-digit fields, extra whitespace and non-ASCII decimal digits such as `２０２０`, since its `\d` is Unicode-aware. The model rejects all of these.
- Timestamps.ParseHttpDate: accepts only fixed-width ASCII digits. `strptime` also accepts one-digit and space-padded days, extra whitespace and non-ASCII decimal digits. Day and month names are the three-letter ones in both, since `%a` and `%b` match abbreviations only. Like `strptime`, the model does not check the day name against the date.
