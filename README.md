# One-time file shares: a Dafny model

This project models the core of Desk2Mob, a web application in which a sender uploads a
file and gets a six-digit code, and a receiver enters that code to download the file once.
Each share expires ten minutes after upload. The model covers the whole lifecycle of a share:

- **Creation.** The sender page's `uploadFile` stores the blob at `uploads/<id>` and inserts
  a `file_shares` row that expires in 10 minutes.
- **Lookup.** The receiver page's `validateCode` gates the code's format, selects the single
  row with that code, and classifies it as not found, already downloaded, expired or found.
  The checks run in that order.
- **Consumption.** The receiver page's `downloadFile` fetches the blob. Only if the fetch
  works does it mark the row downloaded and remove the blob.
- **Sweep.** The scheduled cleanup function selects every row that has expired or been
  downloaded. For each one it removes the blob and then deletes the row, skipping a share
  on an error return and recording thrown errors.
- **Page rules.** The code-input sanitiser, the on-screen countdown and its `m:ss`
  formatting, and the file picker's size/type gate and drag highlight.

State is modelled as two pieces:

- The table is a `seq<FileShare>` whose ids are distinct, which makes it a table keyed by `id`.
  The sequence order is the order in which a select returns rows.
- The storage bucket is a `set<string>` of blob paths.

The library calls become plain operations on that state, in the class `Shares.Backend`:
select by code, insert, update by id, delete by id, upload, download and remove.
Each takes a `fails` flag that stands for an error the call returns. Supabase's own rules are
kept:

- An upload with `upsert: false` is refused when the path is taken.
- An insert is refused on a duplicate primary key.
- Removing an absent path or deleting an absent id is not an error.
- `.single()` yields a row only when exactly one row matches.

Time is integer milliseconds, and the clock is a parameter. The helpers `isFileExpired`,
`generateCode` and `uuidv4` are parameters too: an `expired: int -> bool` predicate on
`expires_at`, the generated `code`, and the `fileId`.

Modules, one per source file or concern:

- `Decimal` (decimal.dfy): number rendering.
- `Shares` (shares.dfy): the row type and the backend.
- `Receive` (receive.dfy): the receiver page.
- `Send` (send.dfy): the sender page.
- `FilePicker` (fileupload.dfy): the file picker.
- `Cleanup` (cleanup.dfy): the cleanup function.
- `Lifecycle` (lifecycle.dfy): properties and scenarios that chain the operations.

The page components, whose state is updated in place, are classes. So is the backend.
The loop of the cleanup function is a `for` loop, proved against the recursive
specification `Cleanup.Run`.

Where a stronger guarantee might be expected, the model follows the code:

- The sweep selects `expires_at < now`, not `<=`.
- No code is retried on collision. Two rows with one code make both unreachable
  (`Receive.CollidingCodesNotFound`).
- The download is read-then-write with no compare-and-set. It marks the row only after a
  successful fetch and leaves the row for the sweep. Two receivers can both get a file when
  the first one's blob removal fails (`Lifecycle.ReadThenWriteRace`).
- A failed row update or blob removal during a download is ignored, as in the page.

## Model

| member | source | states |
|---|---|---|
| `Shares.StoragePathFor` | src/pages/SendPage.tsx:34-35 | the blob path is `uploads/` followed by exactly the file id |
| `Shares.NewShare` | src/pages/SendPage.tsx:68-84 | a new row has the upload's id and path, the generated code, the file's name/size/type, `expires_at = created + 600000` ms, `downloaded = false`, `download_count = 0` |
| `Shares.Matching` | src/pages/ReceivePage.tsx:28-31 | the selection by code holds exactly the rows whose code is that code |
| `Shares.Single` | src/pages/ReceivePage.tsx:32 | `.single()` yields a row iff the selection has exactly one, and then that row |
| `Shares.Overdue` | supabase/functions/cleanup-expired-files/index.ts:28-31 | the sweep selects exactly the rows with `expires_at < now` or `downloaded` |
| `Shares.DeleteById` | supabase/functions/cleanup-expired-files/index.ts:59-62 | delete by id removes every row with that id and keeps every other row |
| `Shares.DeleteKeepsDistinct` | supabase/functions/cleanup-expired-files/index.ts:59-62 | deleting by id keeps the primary key distinct |
| `Shares.FilterKeepsDistinct` | supabase/functions/cleanup-expired-files/index.ts:28-31 | every selection from a keyed table has distinct ids |
| `Shares.MarkDownloaded` | src/pages/ReceivePage.tsx:86-89 | the update sets `downloaded = true, download_count = 1` on the rows with that id and leaves every other row as it was |
| `Shares.MarkDownloadedFrame` | src/pages/ReceivePage.tsx:86-89 | the update adds and removes no row, keeps ids, keeps the primary key distinct, leaves other rows untouched and keeps every code's match count |
| `Shares.SingleMatch` | src/pages/ReceivePage.tsx:28-34 | in a keyed table, the lookup by a row's code yields that row iff no other row holds the code |
| `Shares.MatchingAllEqual` | src/pages/ReceivePage.tsx:28-32 | in a keyed table, a code held by one row selects exactly that row |
| `Shares.NoMatchingEmpty` | src/pages/ReceivePage.tsx:28-32 | a code that no row holds selects nothing |
| `Shares.Backend.SelectSingleByCode` | src/pages/ReceivePage.tsx:28-34 | the query returns a row only when it did not fail and exactly one row has the code; that row is in the table with that code |
| `Shares.Backend.Insert` | src/pages/SendPage.tsx:70-86 | the insert appends the row iff it did not fail and the id is new; the bucket is unchanged and ids stay distinct |
| `Shares.Backend.UpdateDownloaded` | src/pages/ReceivePage.tsx:86-89 | unless it fails, the table becomes `MarkDownloaded` of the old one; the bucket is unchanged |
| `Shares.Backend.Delete` | supabase/functions/cleanup-expired-files/index.ts:59-67 | unless it fails, the table becomes `DeleteById` of the old one; ids stay distinct |
| `Shares.Backend.Upload` | src/pages/SendPage.tsx:38-43 | the upload adds the path iff it did not fail and the path was free (`upsert: false`); the table is unchanged |
| `Shares.Backend.Download` | src/pages/ReceivePage.tsx:69-73 | the fetch succeeds iff it did not fail and the path holds a blob |
| `Shares.Backend.Remove` | src/pages/ReceivePage.tsx:91-93 | unless it fails, the path is gone from the bucket; an absent path is no error |
| `Decimal.Show` | src/pages/SendPage.tsx:120-122 | a number's decimal text is non-empty, all digits, without a leading zero |
| `Decimal.ValueShow` | src/pages/SendPage.tsx:122 | the decimal text reads back as the same number |
| `Decimal.ShowInjective` | src/pages/SendPage.tsx:120-122 | different numbers have different decimal text |
| `Decimal.ShowInt` | src/components/FileUpload.tsx:43 | an integer's text starts with `-` exactly when it is negative, and the digits after any sign read back as its absolute value |
| `Receive.Digits` | src/pages/ReceivePage.tsx:105 | `replace(/\D/g, '')` keeps a single character iff it is a digit, keeps no other character, and leaves an all-digit input unchanged |
| `Receive.DigitsAppend` | src/pages/ReceivePage.tsx:105 | the digits of a concatenation are the digits of each part in order; with the one-character case this fixes the order and count of kept digits |
| `Receive.SanitizeCode` | src/pages/ReceivePage.tsx:105 | the sanitised code is all digits, at most 6 long, the first `min(6, #digits)` digits of the input |
| `Receive.SanitizeIdempotent` | src/pages/ReceivePage.tsx:104-106 | sanitising a sanitised code changes nothing |
| `Receive.Lookup` | src/pages/ReceivePage.tsx:28-38 | the lookup yields no row iff the query failed or the code matches zero or several rows; a row it yields is the only one with the code |
| `Receive.Classify` | src/pages/ReceivePage.tsx:18-52 | a code whose length is not 6 is rejected before any table access; no single row gives not found; a found row is in the table, has the code, is the only one with it, and is neither downloaded nor expired |
| `Receive.Message` | src/pages/ReceivePage.tsx:19-50 | the page shows an error line for every verdict except found |
| `Receive.ClassifyUniqueRow` | src/pages/ReceivePage.tsx:40-52 | for a code held by one row, a downloaded row reports "already downloaded" even when it is also expired, an expired one "expired", any other one is found |
| `Receive.CollidingCodesNotFound` | src/pages/ReceivePage.tsx:28-38 | two different rows with one code make that code report not found |
| `Receive.DeferredCodeAsWritten` | src/pages/ReceivePage.tsx:104-110 | as written, the deferred check fires on a 6-digit input but validates the code held before this input |
| `Receive.DeferredCheckAsWrittenRejects` | src/pages/ReceivePage.tsx:107-109 | as written, completing a shorter code to 6 digits makes the deferred check report the format error |
| `Receive.DeferredCheckAsWrittenExample` | src/pages/ReceivePage.tsx:107-109 | typing the sixth digit after `12345` makes the deferred check validate `12345` and reject it |
| `Receive.DeferredCode` | src/pages/ReceivePage.tsx:105-108 | the intended deferred check fires iff the input has at least 6 digits and validates its first 6 |
| `Receive.DeferredCodePassesFormatGate` | src/pages/ReceivePage.tsx:18-22 | the intended deferred check's code is all digits and always passes the format gate |
| `Receive.ReceivePage.constructor` | src/pages/ReceivePage.tsx:11-14 | the page starts with an empty code, no file and no error |
| `Receive.ReceivePage.HandleCodeInput` | src/pages/ReceivePage.tsx:104-110 | the code becomes the sanitised input and stays a string of at most 6 digits; a deferred check is due iff it has 6 digits |
| `Receive.ReceivePage.ValidateCode` | src/pages/ReceivePage.tsx:18-59 | the table and bucket are unchanged; the error is the verdict's message and the file is selected only when found; a thrown query shows the generic error |
| `Receive.ReceivePage.DownloadFile` | src/pages/ReceivePage.tsx:61-102 | with no file it does nothing; a failed fetch changes no row or blob and shows "Download failed"; after a fetch only that id is marked and only its path removed, each unless its own call failed |
| `Receive.ReceivePage.ResetForm` | src/pages/ReceivePage.tsx:112-116 | the code, file and error are cleared |
| `Send.NextTick` | src/pages/SendPage.tsx:94-100 | a tick never yields a negative count |
| `Send.TicksFromValue` | src/pages/SendPage.tsx:93-101 | from a count `t >= 0`, `k` ticks give `t - k`, or 0 once `k >= t` |
| `Send.CountdownReachesZero` | src/pages/SendPage.tsx:20 | the countdown from 600 reads 0 exactly from the 600th tick on |
| `Send.PadTwo` | src/pages/SendPage.tsx:122 | `padStart(2, '0')` of a number below 100 is two digits denoting that number |
| `Send.FormatTime` | src/pages/SendPage.tsx:119-123 | the formatted time ends in `:` and two characters |
| `Send.FormatTimeRoundTrip` | src/pages/SendPage.tsx:119-123 | the `m:ss` text reads back as the same number of seconds: minutes `s / 60` written without a leading zero, seconds `s % 60` on two digits |
| `Send.FormatTimeStart` | src/pages/SendPage.tsx:119-123 | 600 seconds format as `10:00` |
| `Send.SendPage.constructor` | src/pages/SendPage.tsx:14-20 | the page starts with no file, no code, not complete, 600 seconds left and no timer |
| `Send.SendPage.HandleFileSelect` | src/pages/SendPage.tsx:22-24 | the picked file becomes the selection and nothing else changes |
| `Send.SendPage.UploadFile` | src/pages/SendPage.tsx:26-109 | with no file nothing happens; a failed upload inserts no row; a failed insert leaves the blob and publishes no code; on success the blob is at `uploads/<id>`, the new row is appended, the code is shown and the countdown starts |
| `Send.SendPage.Tick` | src/pages/SendPage.tsx:93-101 | a running countdown takes one tick and stops on reaching zero; a stopped one does nothing |
| `FilePicker.Check` | src/components/FileUpload.tsx:41-50 | a file is accepted iff its size is at most the limit and (no types are listed or its type is listed); an oversized file is refused for size whatever its type |
| `FilePicker.RoundMegabytes` | src/components/FileUpload.tsx:43 | `Math.round(maxSize / 2^20)` is the whole number of megabytes nearest the limit, halves rounded up |
| `FilePicker.SizeMessage` | src/components/FileUpload.tsx:43 | the size error is the fixed text, then the limit rounded to whole megabytes in decimal (with its sign), then `MB` |
| `FilePicker.DefaultSizeMessage` | src/components/FileUpload.tsx:12-13 | the default limit is 100 MB and its error reads "File size must be less than 100MB" |
| `FilePicker.FileUpload.constructor` | src/components/FileUpload.tsx:10-17 | the picker keeps its props and starts idle with no file, no error and no callback made |
| `FilePicker.FileUpload.WithDefaults` | src/components/FileUpload.tsx:12-13 | the default props are a 100 MB limit and no type restriction |
| `FilePicker.FileUpload.ValidateAndSelectFile` | src/components/FileUpload.tsx:41-54 | an accepted file becomes the selection and is passed to `onFileSelect` exactly once; a refused one sets the size or type error and selects and notifies nothing |
| `FilePicker.FileUpload.HandleDrag` | src/components/FileUpload.tsx:19-27 | `dragenter`/`dragover` light the zone, `dragleave` darkens it, other events leave it |
| `FilePicker.FileUpload.HandleDrop` | src/components/FileUpload.tsx:29-39 | a drop always darkens the zone and clears the error, then gates the first file if any; a refused file sets the size or type error the gate gives |
| `FilePicker.FileUpload.HandleInputChange` | src/components/FileUpload.tsx:56-61 | the first chosen file goes through the gate and a refused one sets the gate's size or type error; the error is not cleared first |
| `FilePicker.FileUpload.RemoveFile` | src/components/FileUpload.tsx:63-66 | the selection and the error are cleared |
| `Cleanup.ReasonFor` | supabase/functions/cleanup-expired-files/index.ts:73 | the reason is `expired` iff `expires_at < now`; a selected row reported `downloaded` was downloaded |
| `Cleanup.EntryFor` | supabase/functions/cleanup-expired-files/index.ts:53-83 | an error return adds no entry; a `deleted` entry comes only when both calls succeed, carrying the share's id, path and reason; a thrown error adds an `error` entry |
| `Cleanup.RunRows` | supabase/functions/cleanup-expired-files/index.ts:46-67 | after the loop, a row is gone iff some selected share with its id met no fault |
| `Cleanup.RunBlobs` | supabase/functions/cleanup-expired-files/index.ts:46-56 | after the loop, a blob is gone iff some selected share with that path had its removal go through |
| `Cleanup.RunResults` | supabase/functions/cleanup-expired-files/index.ts:44-85 | the results hold exactly the entries the shares contributed, one per contributing share |
| `Cleanup.RunCalls` | supabase/functions/cleanup-expired-files/index.ts:49-62 | every row deletion comes right after the removal of the same share's blob, and only selected shares are touched |
| `Cleanup.Sweep` | supabase/functions/cleanup-expired-files/index.ts:27-93 | the loop leaves the table, bucket and call log as the specification `Run` over the selected rows says; an empty selection gets the "nothing to clean up" reply, any other the results |
| `Cleanup.SweepSparesCurrent` | supabase/functions/cleanup-expired-files/index.ts:28-31 | rows neither expired nor downloaded and blobs of no overdue share survive; the sweep adds nothing |
| `Cleanup.SkippedShareStays` | supabase/functions/cleanup-expired-files/index.ts:53-67 | a share whose removal or deletion failed or threw keeps its row |
| `Cleanup.SelectionDistinct` | supabase/functions/cleanup-expired-files/index.ts:28-31 | the selection from a keyed table lists each row at most once |
| `Cleanup.DeletedEntriesAccurate` | supabase/functions/cleanup-expired-files/index.ts:69-74 | every `deleted` entry names an overdue share now gone with its blob, with reason `expired` iff it had expired and otherwise downloaded |
| `Cleanup.DeletedAt` | supabase/functions/cleanup-expired-files/index.ts:49-74 | a selected share that met no fault loses its blob and its row |
| `Cleanup.CountIsReported` | supabase/functions/cleanup-expired-files/index.ts:87-91 | the reported count is the number of shares deleted or thrown, not those skipped on an error return |
| `Cleanup.ResponseMessage` | supabase/functions/cleanup-expired-files/index.ts:37-91 | the early reply is "No expired files to clean up"; otherwise the message is "Cleaned up ", the number of results in decimal, and " files" |
| `Cleanup.FaultFreeSweepCleansAll` | supabase/functions/cleanup-expired-files/index.ts:27-85 | a sweep where no call fails removes every overdue row and blob and reports each as deleted |
| `Cleanup.SecondSweepIsNoOp` | supabase/functions/cleanup-expired-files/index.ts:37-42 | right after a fault-free sweep, a second sweep finds nothing and changes nothing |
| `Cleanup.NothingOverdue` | supabase/functions/cleanup-expired-files/index.ts:28-31 | a table with no expired or downloaded row selects nothing |
| `Lifecycle.CreatedShareIsFound` | src/pages/SendPage.tsx:70-84 | a row just inserted under an unused code is found by that code with the sender's metadata until it expires |
| `Lifecycle.ConsumedShareReportsDownloaded` | src/pages/ReceivePage.tsx:86-89 | once the found row is marked downloaded, its code reports "already downloaded", expired or not |
| `Lifecycle.SweptShareIsGone` | supabase/functions/cleanup-expired-files/index.ts:46-67 | after a fault-free sweep, a downloaded share's code is not found and its blob is gone |
| `Lifecycle.NotOverdueAfterSweep` | supabase/functions/cleanup-expired-files/index.ts:28-31 | an expired or downloaded row is absent from a table whose selection is empty |
| `Lifecycle.ReadThenWriteRace` | src/pages/ReceivePage.tsx:61-95 | two receivers who both resolved a code before either downloaded both download without an error when the first one's blob removal fails; the second removes the blob |

## Left out

- Rendering, routing, the QR code, network status, the progress bar and `simulateProgress`
  (src/pages/SendPage.tsx:46-60): presentation, timers and `Math.random`.
- The `loading`, `downloading` and `uploading` flags: they drive spinners and disable the
  page's button while a call is in flight. The model runs calls one at a time, so this guard
  against a second click has nothing to prevent.
- The blob's bytes, the object URL and the anchor click of a download: browser I/O. A blob
  is only present or absent.
- `copyToClipboard` and its 2-second reset: clipboard I/O and a timer.
- The 500 ms `setTimeout` of `handleCodeInput`. `HandleCodeInput` returns the code that the
  deferred check is to validate instead of scheduling it.
- The interval timers themselves. `Send.SendPage.Tick` is one firing. A second upload on the
  same page, which would start a second interval, is not modelled.
- HTTP, CORS, environment lookups, and the cleanup function's failed first query, which
  leads to the 500 response: transport.
- `isFileExpired`, `generateCode`, `formatFileSize` and `uuidv4` are not part of this model.
  The first three live in `src/lib/supabase`. The first two and `uuidv4` are parameters.
  `formatFileSize` only feeds rendering.
- Concurrency: operations run one after another. Nothing in the code is atomic, so there is
  no interleaving guarantee to state.
- ISO date strings and `toLocaleTimeString`: timestamps are integer milliseconds.
- `created_at`: the insert does not set it, so the database default applies. The model
  takes it to be the insertion time.
- The cleanup function's database clock (`now()` in the filter) and its own clock
  (`new Date()` for the reason) are taken as one clock.
- A thrown error from the row update or the blob removal inside `downloadFile`, which would
  show "Download failed" after the file was already saved: these calls report failure through
  their return value, which the page ignores, and that is what is modelled.
- A thrown error from the upload call in `uploadFile` is treated like an error return. Both
  end in the same alert.
- `Send.NextTick`: its contract states only that the count is never negative. The exact
  count after any number of ticks is stated by `Send.TicksFromValue`.
- `Send.FormatTime`: its contract states only the position of the colon. The contents are
  stated by `Send.FormatTimeRoundTrip`.
- The picker's `removeFile` does not tell the sender page. The page keeps its own selected
  file. The two components are modelled separately, so this is not stated as a property.

## Findings

| source | as written | input that shows it | evidently intended | confidence | as-written member | corrected member |
|---|---|---|---|---|---|---|
| src/pages/ReceivePage.tsx:104-110 | the 500 ms timer calls the `validateCode` closure captured at the previous render, which still holds the code from before this keystroke | previous code `12345`, the user types `6`: the deferred check validates `12345` and shows "Please enter a valid 6-digit code" | validate the 6-digit code just entered | high, not executed | `Receive.DeferredCodeAsWritten` (with `Receive.DeferredCheckAsWrittenRejects`, `Receive.DeferredCheckAsWrittenExample`) | `Receive.DeferredCode` (with `Receive.DeferredCodePassesFormatGate`, used by `Receive.ReceivePage.HandleCodeInput`) |
