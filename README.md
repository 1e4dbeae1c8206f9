# Contest backend: scoring and reporting, modelled in Dafny

This project models the scoring and reporting path of a coding-contest
backend. Teams of a contest round (a *dynamic*) retrieve and upload the
`index.html` and `style.css` of their code directory. Every exchange is
recorded in a Report table. An uploaded style sheet triggers a comparison
of the team's rendered page with the dynamic's answer-key image. The
comparison yields a similarity percentage, a score weighted by the
dynamic, and a red-on-white diff image. The Dynamic table holds each
round's lock flag, score weight and answer-key size.

Modules, one per part of the backend:

- `Common` (common.dfy): `Option`, `Result` and the HTTP error kinds raised.
- `Enums` (enums.dfy): `WebFile`, `FileType` and `Operation`.
- `Text` (text.dfy): the Python `str` operations the backend relies on.
  These are `strip`, `upper`, `replace`, `split`, `str(int)`, `int(str)`
  and zero padding.
- `Patterns` (patterns.dfy): the code, host and ANSI-escape regular
  expressions as predicates, and the log formatter's escape removal.
- `Queries` (queries.dfy): the meaning of the Report-table statements as
  functions over a sequence of rows.
- `DynamicStore` (dynamics.dfy): the Dynamic table as a map. It has the
  statements as pure functions and `DynamicTable`, a class holding the map,
  with the repository's methods.
- `Formaters` (formaters.dfy): name normalisers, the "all" relabelling, the
  operation-report entry with its elapsed time, and the error text.
- `ReportStore` (report_store.dfy): the score formula, and `ReportTable`, a
  class holding the rows and the next id. It also has the three listings
  with their NOT_FOUND rules.
- `Imaging` (imaging.dfy): the differing-pixel count, the similarity, and
  the diff mask. The mask is built in place on an `n x 3` array in four
  passes. The module also has the whole comparison with its error order.
- `FileRoutes` (file_routes.dfy): the retrieve and upload routes. Each
  writes exactly one report. Only a style sheet is compared, and a failed
  comparison is dropped.
- `AnswerKeys` (answer_key.dfy): the answer-key saver, a class whose fields
  are set step by step. The web fields are preferred and the image is the
  fallback. The saved size is stored.

Images are rows of BGR pixels with one byte per channel. The resize
(`INTER_CUBIC`) and the grey conversion (`BGR2GRAY`) are function
parameters. Only the dimensions `resize` produces matter, through
`Imaging.ResizeHonoursSize`. Disk, browser, upload and clock outcomes are
inputs of the operations that depend on them.

Where the design description and the code disagree, the model follows the
code:

- A pixel counts as different when any one channel differs
  (`np.sum(absdiff, 2)` is non-zero), not only when every channel differs.
  So the similarity is 0 exactly when every pixel differs in some channel.
- The score is `int(...)`, which truncates toward zero, not a floor. The
  two agree on the non-negative values that occur.

## Model

| member | source | states |
|---|---|---|
| Enums.WebFile.Value | src/common/enums.py:17-19 | Html is named "index.html" and Css "style.css", and neither name is the other's |
| Enums.WebFile.Toggle | src/common/enums.py:21-23 | the toggled file differs from the original |
| Enums.FileType.Value | src/common/enums.py:27-29 | HtmlType carries "text/html" and CssType "text/css", and neither value is the other's |
| Enums.FileType.Filename | src/common/enums.py:35-37 | HTML content lives in index.html and CSS content in style.css |
| Enums.FileType.Toggle | src/common/enums.py:39-41 | the toggled type differs from the original |
| Enums.WebFileToggleInvolution | src/common/enums.py:21-23 | `toggle` is an involution with no fixed point |
| Enums.FileTypeToggleInvolution | src/common/enums.py:39-41 | `toggle` is an involution with no fixed point |
| Enums.FilenameInjective | src/common/enums.py:35-37 | distinct media types map to distinct files and file names |
| Enums.FilenameCommutesWithToggle | src/common/enums.py:35-41 | filename(toggle(t)) == toggle(filename(t)) |
| Text.Strip | src/utils/formaters.py:10 | the result is trimmed and is a slice `s[i..j]` where everything cut before `i` and after `j` is whitespace (Python's whitespace set) |
| Text.StripUnique | src/utils/formaters.py:10 | only one slice is trimmed with whitespace-only ends, so the result of `strip` is determined |
| Text.StripTrimmed | src/utils/formaters.py:10 | stripping a string without edge whitespace changes nothing |
| Text.Upper | src/utils/formaters.py:10 | same length; each ASCII lower-case letter becomes upper case and every other character is kept |
| Text.Replace | src/utils/formaters.py:10 | same length; exactly the occurrences of one character are replaced |
| Text.Split | src/repository/dynamic_repository.py:103 | `split` always gives at least one piece |
| Text.SplitJoined | src/repository/dynamic_repository.py:103 | `a + sep + b` splits back into `[a, b]` when neither holds `sep` |
| Text.IntToStringRoundTrip | src/repository/dynamic_repository.py:105 | `int(str(i)) == i` for every integer |
| Text.ParseInt | src/repository/dynamic_repository.py:103-105 | `int()` restricted to an optional sign and ASCII digits: succeeds exactly on such texts; the value is non-positive iff the sign is "-" (or it is zero) |
| Text.ZeroPad | src/utils/formaters.py:54-57 | `:0Wd` gives at least W digits whose value is the number |
| Patterns.HostLength | src/core/env.py:26-28 | four dot-separated groups of one to three digits take 7 to 15 characters, the bounds declared beside the pattern |
| Patterns.IsHost | src/common/patterns.py:2 | HOST_PATTERN: every accepted host is 7 to 15 characters long |
| Patterns.IsCode | src/common/patterns.py:8 | CODE_PATTERN: an accepted code has four characters, no edge whitespace, and upper-cases to four ASCII capitals |
| Patterns.HostAcceptsDottedQuads | src/common/patterns.py:2 | any four 1-3 digit groups joined by dots are accepted |
| Patterns.HostNoRangeCheck | src/common/patterns.py:2 | "999.999.999.999" is accepted: there is no octet range check |
| Patterns.AnsiMatchAt | src/common/patterns.py:5 | a match starts with ESC and is at least three characters long |
| Patterns.StripAnsi | src/utils/logging.py:24-27 | the substitution never lengthens the text |
| Patterns.StripAnsiShrinks | src/utils/logging.py:24-27 | one pass shortens the text exactly when it holds an escape, and otherwise leaves it unchanged |
| Patterns.StripAnsiLeavesEscape | src/utils/logging.py:24-27 | one pass can leave an escape behind (finding, as written) |
| Patterns.StripAnsiFully | src/utils/logging.py:24-27 | repeated removal leaves no escape and is a fixed point (finding, corrected) |
| Queries.RowsOf | src/repository/queries.py:19-21 | `WHERE dynamic=?` keeps exactly the rows of that dynamic, and is empty iff the dynamic has no row |
| Queries.DeleteReports | src/repository/queries.py:13 | DELETE_REPORTS keeps exactly the rows of other dynamics |
| Queries.DeleteReportsPartition | src/repository/queries.py:13 | the deleted rows and the kept rows together are the table, as a multiset |
| Queries.DeleteReportsKeepsOthers | src/repository/queries.py:13 | another dynamic's rows are untouched, in the same order |
| Queries.RowsOfOperation | src/repository/queries.py:46 | the filter keeps exactly the rows of that dynamic and operation |
| Queries.RowsOfCode | src/repository/queries.py:35 | the group filter keeps exactly the rows of one code |
| Queries.InsertByTime | src/repository/queries.py:20 | inserting into a time-sorted list keeps it sorted and adds exactly one row |
| Queries.SortByTime | src/repository/queries.py:20 | `ORDER BY timestamp ASC` gives a sorted permutation |
| Queries.SelectDynamicReport | src/repository/queries.py:19-21 | the dynamic's rows, all of them and only them, in non-decreasing time |
| Queries.SelectFileReport | src/repository/queries.py:22-25 | NULL iff the file has no row; otherwise a timestamp of a matching row that bounds every matching row |
| Queries.Codes | src/repository/queries.py:35 | the GROUP BY keys are the distinct codes present, with no repeats |
| Queries.MinTime | src/repository/queries.py:31 | MIN(timestamp) is a member's timestamp and below every member's |
| Queries.MaxTime | src/repository/queries.py:32 | MAX(timestamp) is a member's timestamp and above every member's |
| Queries.MaxSimilarity | src/repository/queries.py:33 | MAX ignores NULLs: NULL iff every similarity is NULL, otherwise the largest one present |
| Queries.MaxScore | src/repository/queries.py:34 | MAX ignores NULLs: NULL iff every score is NULL, otherwise the largest one present |
| Queries.Group | src/repository/queries.py:26-36 | a group counts its code's rows (at least one); its first and last timestamps are MIN and MAX of their timestamps, and its similarity and score are their NULL-ignoring MAX |
| Queries.GroupMeaning | src/repository/queries.py:26-36 | read off the code's rows: the count, the earliest and latest timestamps (each attained), the largest similarity and score, NULL iff all are NULL |
| Queries.Aggregate | src/repository/queries.py:26-36 | one group per distinct code |
| Queries.SelectOperationsReport | src/repository/queries.py:26-36 | the aggregate groups of exactly the dynamic's rows, one per code |
| Queries.SelectOperationReport | src/repository/queries.py:37-47 | the aggregate groups of exactly the rows of that dynamic and operation, one per code, each carrying that operation |
| Queries.CountsAddUp | src/repository/queries.py:26-47 | a code's count over all operations is its retrieves plus its uploads |
| Queries.OperationsCountDominates | src/repository/queries.py:26-47 | a per-operation count never exceeds the all-operations count |
| DynamicStore.FormatSize | src/repository/dynamic_repository.py:109 | the stored "WxH" text |
| DynamicStore.ParseSize | src/repository/dynamic_repository.py:103-105 | an unparsable size is an uncaught error |
| DynamicStore.SizeRoundTrip | src/repository/dynamic_repository.py:103-109 | parsing a formatted size gives back (w, h) |
| DynamicStore.InsertDynamic | src/repository/queries.py:50-61 | the insert fails iff the name exists (UNIQUE); otherwise it adds one locked row with the default weight and NULL size, and keeps the rest |
| DynamicStore.DeleteDynamic | src/repository/queries.py:63 | removes that name and keeps every other row |
| DynamicStore.UpdateLock | src/repository/queries.py:65 | changes only the named row's lock, which then reads as its truth value; does nothing when the name is absent |
| DynamicStore.UpdateWeight | src/repository/queries.py:67 | changes only the named row's weight, which then reads as found iff it is non-zero; does nothing when the name is absent |
| DynamicStore.UpdateSize | src/repository/queries.py:69 | changes only the named row's size; does nothing when the name is absent |
| DynamicStore.LockStatusOf | src/repository/dynamic_repository.py:61-66 | NOT_FOUND iff the row is absent; otherwise the lock's truth value |
| DynamicStore.WeightOf | src/repository/dynamic_repository.py:139-144 | NOT_FOUND iff the row is absent or the weight is 0; otherwise the weight |
| DynamicStore.SizeOf | src/repository/dynamic_repository.py:98-105 | NOT_FOUND for an absent row, a NULL size or an empty size; otherwise the parse |
| DynamicStore.NewDynamicDefaults | src/repository/dynamic_repository.py:16 | a new dynamic reads locked, with the default weight and no size |
| DynamicStore.LockRoundTrip | src/repository/dynamic_repository.py:46-80 | setting a lock then reading it gives it back |
| DynamicStore.WeightRoundTrip | src/repository/dynamic_repository.py:123-157 | setting a weight then reading it gives it back, or NOT_FOUND for 0 |
| DynamicStore.SizeStoreRoundTrip | src/repository/dynamic_repository.py:82-121 | `set_size` then `get_size` gives back (w, h) |
| DynamicStore.UpdatesAreLocal | src/repository/queries.py:65-69 | an update of one dynamic leaves every other dynamic's readings unchanged |
| DynamicStore.DeletedIsNotFound | src/repository/dynamic_repository.py:30-43 | after removal every getter answers NOT_FOUND |
| DynamicStore.DynamicTable.AddDynamic | src/repository/dynamic_repository.py:15-28 | fails iff the name exists; on success the table gains the new row |
| DynamicStore.DynamicTable.RemoveDynamic | src/repository/dynamic_repository.py:30-43 | the table without that name |
| DynamicStore.DynamicTable.GetLockStatus | src/repository/dynamic_repository.py:45-66 | the lock reading of the table |
| DynamicStore.DynamicTable.SetLockStatus | src/repository/dynamic_repository.py:68-80 | only that row's lock changes |
| DynamicStore.DynamicTable.GetSize | src/repository/dynamic_repository.py:82-105 | the size reading of the table |
| DynamicStore.DynamicTable.SetSize | src/repository/dynamic_repository.py:107-121 | only that row's size changes, to "WxH" |
| DynamicStore.DynamicTable.GetWeight | src/repository/dynamic_repository.py:123-144 | the weight reading, never 0 on success |
| DynamicStore.DynamicTable.SetWeight | src/repository/dynamic_repository.py:146-157 | only that row's weight changes |
| Formaters.FormatDynamic | src/utils/formaters.py:9-10 | no '-' or ' ' is left, and the name never grows |
| Formaters.FormatCode | src/utils/formaters.py:13-14 | no ASCII lower-case letter is left |
| Formaters.FormatDynamicShape | src/utils/formaters.py:9-10 | the result is trimmed and has no lower-case ASCII letter |
| Formaters.FormatDynamicIdempotent | src/utils/formaters.py:9-10 | normalising twice is normalising once |
| Formaters.FormatCodeIdempotent | src/utils/formaters.py:13-14 | normalising twice is normalising once |
| Formaters.FormatCodeKeepsPattern | src/utils/formaters.py:13-14 | an accepted code stays accepted and becomes four upper-case letters |
| Formaters.SetOperationToAll | src/utils/formaters.py:37-41 | the operation becomes "all" and every other column is kept |
| Formaters.Micros | src/utils/formaters.py:46-47 | a timestamp becomes its nearest whole microsecond |
| Formaters.MicrosMonotone | src/utils/formaters.py:46-49 | a later timestamp never maps to fewer microseconds |
| Formaters.SplitElapsed | src/utils/formaters.py:51-52 | hours, minutes and seconds recompose the total, with minutes and seconds below 60 |
| Formaters.SplitElapsedUnique | src/utils/formaters.py:51-52 | that decomposition is the only one with those bounds |
| Formaters.ElapsedText | src/utils/formaters.py:54-57 | as written: "T" then hours, minutes and seconds, each reading back as its part with minutes and seconds in two digits, then "." and the microseconds padded to two digits, read as a whole number |
| Formaters.ElapsedFractionAsWritten | src/utils/formaters.py:54-57 | 5 µs of elapsed time prints as "T00:00:00.05", whose fraction reads as 50000 µs (finding, as written) |
| Formaters.ElapsedTextCorrected | src/utils/formaters.py:54-57 | the same fields before the dot, then a six-digit fraction that reads back as the microseconds (finding, corrected) |
| Formaters.FormatOperationReport | src/utils/formaters.py:44-68 | code, operation, count, similarity and score pass through; the elapsed text is that of `last - first` (six-digit fraction), and is exactly the as-written `:02d` text whenever the microseconds are at least 100000 |
| Formaters.ElapsedTextsAgree | src/utils/formaters.py:54-57 | the as-written and the corrected elapsed texts are equal whenever the microseconds have six digits |
| Formaters.GetErrorMessage | src/utils/formaters.py:71-72 | the first argument unless it is missing or empty, then ERROR_MESSAGE; never empty |
| Formaters.FormatError | src/utils/formaters.py:75-79 | "<type>: <message>", with the default message when none is given |
| ReportStore.Truncate | src/repository/report_repository.py:35 | `int()` of a float rounds toward zero |
| ReportStore.Score | src/repository/report_repository.py:34-37 | the score is NULL iff the similarity is NULL |
| ReportStore.EntryOfForgetsDynamic | src/utils/formaters.py:17-29 | a dynamic-report entry keeps every column of its row except the dynamic |
| ReportStore.ScoreBounds | src/repository/report_repository.py:35 | for similarity in [0, 100] and weight >= 1, 0 <= score <= weight; 100 scores the weight and 0 scores 0 |
| ReportStore.ScoreMonotone | src/repository/report_repository.py:35 | a higher similarity never scores lower |
| ReportStore.ReportTable.AddReport | src/repository/report_repository.py:25-59 | NOT_FOUND without a usable weight and nothing appended; otherwise exactly one row appended with the next id and the formula's score |
| ReportStore.ReportTable.CleanReports | src/repository/report_repository.py:61-74 | the table becomes DELETE_REPORTS of itself; ids stay increasing |
| ReportStore.KeptIdsBelow | src/repository/queries.py:3 | deletion keeps AUTOINCREMENT ids increasing and below the next id |
| ReportStore.GetDynamicReports | src/repository/report_repository.py:76-109 | NOT_FOUND iff the dynamic has no row; otherwise one entry per row, in time order, and count = number of rows |
| ReportStore.GetFileReport | src/repository/report_repository.py:111-148 | NOT_FOUND iff no row matches or the latest time is 0.0; otherwise the latest matching time |
| ReportStore.OperationGroups | src/repository/report_repository.py:154-182 | ALL: each group of the dynamic's aggregate relabelled "all", in order; otherwise the operation's own groups |
| ReportStore.OperationGroupMeaning | src/repository/report_repository.py:150-194 | each listed group stands for one code of the selected rows: its count, earliest and latest timestamps, and NULL-ignoring maximum similarity and score over them |
| ReportStore.GetOperationReports | src/repository/report_repository.py:150-194 | NOT_FOUND iff there is no group; otherwise one formatted entry per group carrying the requested operation |
| ReportStore.OperationReportsNotFound | src/repository/report_repository.py:175-179 | NOT_FOUND iff the dynamic (and operation) has no row |
| ReportStore.CleanReportsEffect | src/repository/report_repository.py:61-74 | after cleaning, the dynamic's listing is NOT_FOUND and other dynamics' listings are unchanged |
| Imaging.AbsDiff | src/use_cases/compare_similarity.py:112 | a channel's absdiff is 0 iff the channels are equal |
| Imaging.ChannelSum | src/use_cases/compare_similarity.py:114 | the channel sum is at most 765 |
| Imaging.ChannelSumZero | src/use_cases/compare_similarity.py:114 | the channel sum is non-zero iff the pixels differ |
| Imaging.CountDiff | src/use_cases/compare_similarity.py:111-114 | the count is the number of positions where the pixels differ in some channel; hence 0 iff equal and all iff every pixel differs |
| Imaging.Similarity | src/use_cases/compare_similarity.py:115-116 | in [0, 100]; 100 iff no pixel differs; 0 iff every pixel differs |
| Imaging.SatSub | src/use_cases/compare_similarity.py:118 | `subtract` saturates: never above the minuend, 0 iff the subtrahend is at least as large, otherwise the exact difference |
| Imaging.SimilarityExtremes | src/use_cases/compare_similarity.py:111-116 | on two images: 100 iff equal, 0 iff every pixel differs in some channel |
| Imaging.Threshold | src/use_cases/compare_similarity.py:121 | 255 iff the grey value exceeds 30, else 0 |
| Imaging.DiffPixel | src/use_cases/compare_similarity.py:118-128 | every diff pixel is red or white, red iff the thresholded grey is 255 |
| Imaging.DiffPixels | src/use_cases/compare_similarity.py:118-128 | the diff image, pixel by pixel |
| Imaging.DiffOfEqualIsWhite | src/use_cases/compare_similarity.py:118-128 | identical images give an all-white diff |
| Imaging.BuildDiff | src/use_cases/compare_similarity.py:118-128 | the four in-place passes produce the diff image |
| Imaging.Aligned | src/use_cases/compare_similarity.py:96-106 | the screenshot is kept if its shape matches, resized to the recorded size otherwise, and an unusable size is an internal error |
| Imaging.CompareSimilarity | src/use_cases/compare_similarity.py:41-148 | the comparison's outcome and the images it writes |
| Imaging.ComparisonOf | src/use_cases/compare_similarity.py:41-148 | a diff is written only with a similarity; a similarity lies in [0, 100] |
| Imaging.MissingFilesAreNotFound | src/use_cases/compare_similarity.py:49-85 | a missing index page or answer key is NOT_FOUND, with nothing written |
| Imaging.ImageFailuresAreInternal | src/use_cases/compare_similarity.py:87-144 | once the answer key exists, every failure is internal and no diff is written |
| Imaging.ComparisonMeaning | src/use_cases/compare_similarity.py:96-128 | the saved screenshot is the aligned one; the similarity extremes hold; the diff is red exactly at marked pixels |
| Imaging.AlignedComparisonSucceeds | src/use_cases/compare_similarity.py:55-106 | with a recorded size matching the answer key, a resize to a mismatched capture always yields a similarity |
| FileRoutes.RecordedSimilarity | src/routes/files.py:58-62 | a similarity is recorded only for a CSS upload whose comparison returned one |
| FileRoutes.RetrieveFile | src/routes/files.py:31-41 | no row when the read fails; otherwise exactly one RETRIEVE row with no similarity or score, unless the weight is missing |
| FileRoutes.UploadFile | src/routes/files.py:52-69 | no row when the write fails; only CSS is compared; comparison errors are dropped; exactly one UPLOAD row otherwise |
| FileRoutes.RecordedScore | src/routes/files.py:58-67 | HTML uploads and failed comparisons score NULL; otherwise 0 <= score <= weight |
| AnswerKeys.SizeOfImage | src/use_cases/answer_key.py:133 | `get_size` is (width, height) |
| AnswerKeys.AcceptedType | src/use_cases/answer_key.py:111-116 | an upload is taken as an image when it declares no content type or one that starts with "image/" |
| AnswerKeys.AnswerKeySaved | src/use_cases/answer_key.py:29-71 | 422 exactly when the form has no field; any other failure is internal, or 415 for an image with a declared non-image type; a missing web dir never escapes as NOT_FOUND |
| AnswerKeys.ImageSaved | src/use_cases/answer_key.py:129-141 | the decoded image is saved; a decode or write failure is internal |
| AnswerKeys.WebSaved | src/use_cases/answer_key.py:73-108 | a missing web dir is NOT_FOUND; write and render failures are internal; otherwise the capture is saved |
| AnswerKeys.UploadSaved | src/use_cases/answer_key.py:110-127 | a declared non-image type is 415; a read failure is internal; otherwise the image is saved |
| AnswerKeys.AnswerKey.SaveImage | src/use_cases/answer_key.py:129-141 | the size is recorded before the write, even when the write fails |
| AnswerKeys.AnswerKey.SaveFromWebFields | src/use_cases/answer_key.py:73-108 | follows the web path; on success the size is the saved image's |
| AnswerKeys.AnswerKey.SaveFromImageField | src/use_cases/answer_key.py:110-127 | follows the image path; on success the size is the saved image's |
| AnswerKeys.AnswerKey.Save | src/use_cases/answer_key.py:29-71 | 422 before any directory is made; on success the saved image's size is stored and reads back; on failure the table is unchanged |
| AnswerKeys.NoFieldsRefused | src/use_cases/answer_key.py:32-36 | a form with no field is refused with 422 |
| AnswerKeys.WebPreferred | src/use_cases/answer_key.py:43-45 | a successful web path decides the answer key, whatever the image |
| AnswerKeys.ImageFallback | src/use_cases/answer_key.py:43-54 | a failed web path falls back to the image, or is internal without one |
| AnswerKeys.NonImageRefused | src/use_cases/answer_key.py:111-116 | an image used with a declared non-image type is refused with 415 |
| AnswerKeys.SavedImageIsOffered | src/use_cases/answer_key.py:43-57 | the saved image is the page's capture or the uploaded image |

## Left out

- Browser, file system, clock: rendering, screenshots, file reads and writes, `makedirs` and `time()` are inputs (`Capture`, `WebEnv`, `Page`, `fileRead`/`fileWrite`, `now`). They are foreign automation and I/O.
- OpenCV and NumPy internals: `imdecode`/`imread` results are inputs; `INTER_CUBIC` resize and the `BGR2GRAY` weights are function parameters. `imwrite` in the comparison returns a flag the code ignores; the model counts those images as written.
- SQLite plumbing: connections, commits and the `HTTPError` wrapping of `sqlite3.Error` are not modelled. The tables are a sequence and a map. The repository's `__DATABASE` class attribute lookup is not modelled.
- Floating point: similarities, scores and timestamps use exact `real` arithmetic, so float rounding is not modelled.
- Formaters.Micros: rounds half up; Python's `fromtimestamp` rounds half to even.
- Timestamps in listings stay numbers: the ISO text of `datetime.fromtimestamp(...).isoformat()` depends on the local time zone.
- Text.Upper: maps ASCII letters only; Python's `upper` also maps other scripts and can change length.
- DynamicStore.ParseSize: Python's `int` also accepts surrounding whitespace and digit underscores; the model accepts only an optional sign and ASCII digits.
- Formaters.GetErrorMessage: exception arguments are modelled as their text; a non-string falsy first argument (0, None) is the empty text.
- Formaters.FormatOperationReport: uses the corrected six-digit fraction; the two-digit text as written is `Formaters.ElapsedText`, and the two differ only when the microseconds are below 100000 (`Formaters.ElapsedTextsAgree`).
- Text.ParseInt: Python's `int` also accepts surrounding whitespace, underscores between digits and non-ASCII Unicode digits; the model accepts only an optional sign followed by ASCII digits and returns None for those other texts.
- The grouped statements' bare `operation` column takes the value of the group's first row; SQLite may pick any row of the group.
- `ORDER BY timestamp` ties and the GROUP BY output order are unspecified in SQL. The model keeps insertion order for ties and the order of first appearance for groups.
- Names the source refers to but does not define are given fixed meanings. Operations are RETRIEVE, UPLOAD and ALL; DEFAULT_WEIGHT is 5000; `get_size` is (width, height). A form has web fields when both html and css are non-empty, and it has fields when it has web fields or an image.
- Formaters.MicrosMonotone: timestamps are ordered as instants; the source subtracts naive local datetimes (src/utils/formaters.py:46-49), so across a daylight-saving fall-back `last - first` can be negative and its text meaningless, which the model does not capture.
- AnswerKeys.AnswerKey.Save: models the image and web directories as path joins; in the source `IMG_DIR` and `WEB_DIR` are plain strings (src/core/config.py:17-18), so `IMG_DIR / dynamic` (src/use_cases/answer_key.py:39) and `WEB_DIR / dynamic` (line 74) would raise `TypeError`.
- `FileType.file`, used for the index-page path (src/use_cases/compare_similarity.py:46, src/use_cases/answer_key.py:82-83), is not defined by `FileType`, which has only `filename`; the model reads it as `filename`.
- `SELECT_DYNAMICS` (the list of dynamics) is not used by the modelled operations.
- `lru_cache` on the formatters only memoises and does not change results.

## Findings

| source | as written | input that shows it | evidently intended | confidence | as-written member | corrected member |
|---|---|---|---|---|---|---|
| src/utils/logging.py:24-27 | one `re.sub` pass of `\x1b\[[0-9;]*m` | ESC ESC "[m[m" becomes ESC "[m", which is still a colour escape | log text with no colour escape left | low, not executed | Patterns.StripAnsiLeavesEscape | Patterns.StripAnsiFully |
| src/utils/formaters.py:54-57 | the fraction after the seconds is `{microseconds:02d}` | an elapsed time of 5 µs prints "T00:00:00.05", which reads as 0.05 s | a six-digit fraction, `:06d` | medium, not executed | Formaters.ElapsedFractionAsWritten | Formaters.ElapsedTextCorrected |
