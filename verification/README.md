# Thumbnail pipeline — a Dafny model

This project models the job-processing core of a thumbnail service in Dafny.
Users upload images and videos. The server records one job per file and
enqueues a thumbnail task for it. A worker turns the task into a 128×128
JPEG, writing the job's status as it goes. A relay pushes every status change
to the owner's socket room. The web client keeps a live job list and an
upload form.

The model is functional. Each operation is a pure function over immutable
datatypes:
- The store, queue, file system, decoder and clock are parameters: the
  answers they give (found / not found, throws / returns, exit status, file
  exists).
- A worker attempt and an upload request are modelled as the sequence of
  store writes that land. A write whose call throws does not land.
  `ApplyWrites` gives the store those writes leave.
- Durations are integer centiseconds and the seek position is in
  milliseconds, so "half the duration" is exact.
- `path.join`, `path.normalize` and `path.extname` are modelled as Node's
  POSIX versions.

Modules, following the repository's files:

| module | file | models |
|---|---|---|
| `Wrappers`, `Strings` | wrappers.dfy, strings.dfy | `Option`/`Result`; `split`, `includes`, `replace`, `toLowerCase` and decimal printing |
| `JobModel` | job_model.dfy | the job schema, store writes, per-owner listing |
| `TaskQueue` | task_queue.dfy | the task payload and options handed to the queue |
| `Media`, `Duration`, `Worker` | media.dfy, duration.dfy, worker.dfy | the worker callback: extension dispatch, thumbnail naming, duration parsing, the write trace of one attempt, repeated deliveries |
| `Http`, `Upload` | http.dfy, upload.dfy | token extraction, the upload route and the listing route |
| `PosixPath`, `ServerApp` | paths.dfy, server_app.dfy | path normalisation, the event relay and its wiring, the download route |
| `JobList` | job_list.dfy | the client's job list: update reducer, fetch, displayed names, downloads |
| `UploadFormState`, `UploadFormJs`, `UploadFormTsx` | upload_form.dfy | the two variants of the client's upload form |

Several properties one might expect of such a service do not hold of the
code; the model follows the code:
- **Status transitions are not guarded.** Every write overwrites the status.
  Nothing rejects, for example, `completed → processing` on a retried
  delivery. `ApplyWrite` has no transition check.
- **The media kind is re-derived from the extension in every attempt.** It
  is not fixed when the task is created (`Media.KindOf`).
- **The midpoint of a zero-length video is 0.** It is not strictly inside the
  video (`Duration.MidpointMillis`).
- **Neither `thumbnailFile` nor `error` is tied to the status.** A `failed`
  write keeps an earlier thumbnail name. The `error` field is not in the
  schema at all.
- **The bearer scheme word is never checked.** Any first word is accepted in
  place of `Bearer` (`Http.SchemeAndToken`).
- **`authenticateToken` is duplicated.** server/routes/upload.js:18-34 and
  server/app.js:52-67 are identical, so it is modelled once (`Http.Authenticate`).

## Model

| member | source | states |
|---|---|---|
| JobModel.ParseStatus | server/models/Job.js:7 | a status string is accepted exactly when it names one of the five enum values, and then yields that value |
| JobModel.NewRecord | server/models/Job.js:3-9 | a record validates iff `userId` is present, `originalFile` is non-empty and the status is in the enum; status defaults to `pending`, `createdAt` to the creation time, `thumbnailFile` has no default; the error lists exactly the failing paths |
| JobModel.DocConforms | server/routes/upload.js:133-145 | every document the upload route builds passes validation, and the stored record is its schema-declared part |
| JobModel.ApplyWrite | server/workers/thumbnailWorker.js:42-53 | an insert stores the document's declared part; an update of a missing id leaves the store as it was; an update of a present id sets its status, sets its thumbnail when the write gives one and keeps it otherwise; every other record is left as it was |
| JobModel.LastWriteWins | server/workers/thumbnailWorker.js:171-191 | after a sequence of writes, a present job has the status of the last write that targets it |
| JobModel.OtherWritesPreserve | server/workers/thumbnailWorker.js:42-49 | writes to other ids leave a record untouched |
| JobModel.OtherWritesKeepAbsent | server/workers/thumbnailWorker.js:42-49 | writes to other ids never create an absent record |
| JobModel.OwnedBy | server/routes/upload.js:84 | the filter keeps a record iff the requester owns it |
| JobModel.SortNewestFirst | server/routes/upload.js:84 | the sort yields a permutation of its input ordered by `createdAt`, newest first |
| JobModel.ListByOwner | server/routes/upload.js:84 | the listing is a newest-first permutation of exactly the owner's records |
| JobModel.ListedIffOwned | server/routes/upload.js:84 | a record is listed iff it is stored and owned by the requester |
| Media.ExtName | server/workers/thumbnailWorker.js:81 | the extension ends the base name and is empty or a `.` followed by dot-free, separator-free text; it is empty exactly when the base name has no `.` after its first character or is `..` (so `a.mp4` gives `.mp4`, `.mp4` gives nothing) |
| Media.Extension | server/workers/thumbnailWorker.js:81 | the extension of one path component ends that component and is empty or a `.` followed by dot-free text; it is empty exactly when the component has no `.` after its first character or is `..` |
| Media.ExtNameOfBaseName | server/workers/thumbnailWorker.js:81 | the extension depends only on the last path component |
| Media.KindOfBySuffix | server/workers/thumbnailWorker.js:81-84 | a file takes the video branch exactly when its base name is longer than one of the five video extensions and ends with it in any letter case; every other file, including a bare `.mp4`, takes the image branch |
| Media.SameExtensionSameKind | server/workers/thumbnailWorker.js:81-84 | two paths with the same extension take the same branch |
| Media.VideoTestIgnoresCase | server/workers/thumbnailWorker.js:81-82 | the dispatch is the same for an extension and its lower-case form; a video extension is a dot followed by three or four characters |
| Media.ToForwardSlashes | server/workers/thumbnailWorker.js:58 | no backslash remains, the length is kept, each backslash becomes `/` and every other character stays |
| Media.ToForwardSlashesIdempotent | server/workers/thumbnailWorker.js:58 | normalising twice is normalising once, and a backslash-free path is unchanged |
| Media.ThumbnailName | server/workers/thumbnailWorker.js:62-64 | the name starts with `thumb-` and holds no separator of either kind |
| Media.ThumbnailNameIsJpeg | server/workers/thumbnailWorker.js:62-64 | every thumbnail name has extension `.jpg`, so the worker would dispatch it as an image |
| Media.ThumbnailNameInjective | server/workers/thumbnailWorker.js:62-64 | distinct timestamps give distinct names |
| Media.ThumbnailPathHoldsName | server/workers/thumbnailWorker.js:65-68 | the output path is `uploads/<name>` and its last component is the stored name |
| Duration.ParseDuration | server/workers/thumbnailWorker.js:95-98 | a duration is found iff the pattern matches somewhere; the fields are those of the leftmost match; otherwise the error carries the full tool output |
| Duration.ParseFormatted | server/workers/thumbnailWorker.js:95-102 | a printed `Duration: HH:MM:SS.cc` at the start of the output is read back exactly, whatever follows |
| Duration.NoMarkerNoDuration | server/workers/thumbnailWorker.js:95-98 | output without `Duration: ` yields the error |
| Duration.MidpointMillis | server/workers/thumbnailWorker.js:100-104 | twice the midpoint is the total; it lies strictly inside a non-empty video and is 0 for an empty one |
| Worker.RunVideo | server/workers/thumbnailWorker.js:87-152 | the video branch succeeds iff probe, parse, spawn, exit status 0 and resize all succeed; an extraction is requested iff the duration was parsed |
| Worker.GenerateSucceedsIff | server/workers/thumbnailWorker.js:42-165 | generation succeeds iff the job was found, the input exists, the media steps succeeded and the thumbnail exists; it then yields the bare name |
| Worker.Conclude | server/workers/thumbnailWorker.js:40-194 | the `processing` write lands first exactly when the store did not throw; only one `completed` or `failed` write can follow; a `completed` write lands only when the attempt returns; a raised attempt ends with a `failed` write carrying the raised message unless that write threw, in which case that write's error is raised; every write targets the task's job |
| Worker.ConcludeFollowsResult | server/workers/thumbnailWorker.js:170-194 | a `completed` write lands iff generation succeeded and that write did not throw; it is then the last write, carries the name, and the attempt returns; otherwise the raised error is the `failed` write's own error, else the `completed` write's, else the generation's |
| Worker.CompletedOnlyAfterChecks | server/workers/thumbnailWorker.js:42-179 | `completed` lands only as the second write, after `processing`, and exactly when all checks passed and the write did not throw, with `thumb-<now>.jpg` |
| Worker.ReturnedShape | server/workers/thumbnailWorker.js:171-182 | an attempt returns iff every step succeeded, and then it wrote exactly `processing`, `completed` |
| Worker.MissingRecordFails | server/workers/thumbnailWorker.js:51-53 | a missing job still gets `processing` then `failed` with `Job <id> not found in database`, which is re-raised; if that `failed` write throws, its error is raised instead |
| Worker.ExitStatusFails | server/workers/thumbnailWorker.js:129-151 | a non-zero exit status fails generation with `Video processing failed: FFmpeg command failed with exit code N`, which is raised unless the `failed` write throws |
| Worker.UnparsableDurationFails | server/workers/thumbnailWorker.js:95-151 | an unparsable duration fails generation wrapped, carrying the tool output, which is raised unless the `failed` write throws |
| Worker.VideoExtraction | server/workers/thumbnailWorker.js:100-120 | the extraction reads the normalised input, seeks to the probed midpoint and writes the thumbnail path |
| Worker.GenerateExtraction | server/workers/thumbnailWorker.js:75-124 | only a video attempt past the store and file checks requests an extraction |
| Worker.ExtractionAtMidpoint | server/workers/thumbnailWorker.js:57-124 | an extraction happens iff the video branch parsed a duration; it seeks to exactly half of it, strictly inside a non-empty video, with a backslash-free input path |
| Worker.AttemptStoreEffect | server/workers/thumbnailWorker.js:40-191 | after an attempt on a present job: `completed` with the name when it returned; `failed`, thumbnail kept, when it raised and the `failed` write landed; when that write threw, `processing` if the first write landed and untouched otherwise |
| Worker.RunDeliveries | server/routes/upload.js:158-165 | repeated deliveries only write the task's own job and never write `queued` or `pending` |
| Worker.FirstSuccess | server/routes/upload.js:160 | the first delivery that returns; every earlier delivery raised |
| Worker.DeliveriesEndTerminal | server/routes/upload.js:158-165 | for any number of deliveries: a job not already `completed` ends `completed` iff some delivery returned, with the first such delivery's name; if none returned, its thumbnail is kept, only `processing` or `failed` can have replaced its status, and it is `failed` when the last delivery's `failed` write landed |
| Worker.DeliveriesSucceed | server/routes/upload.js:158-165 | when some delivery returns, the job ends `completed` with the first such delivery's thumbnail name |
| Worker.DeliveriesExhausted | server/routes/upload.js:158-165 | when no delivery returns, the thumbnail is kept, only `processing` or `failed` can have replaced the status, and it is `failed` when the last delivery's `failed` write landed |
| Http.ExtractToken | server/app.js:53-54 | the token is the second space-separated field; it is never empty and holds no space |
| Http.SchemeAndToken | server/app.js:53-54 | `<word> <token>[ <more>]` yields the token, whatever the first word |
| Http.NoSpaceNoToken | server/app.js:53-58 | a missing header or one without a space carries no token |
| Http.Authenticate | server/app.js:52-67 | authentication succeeds iff a token is present and accepted; otherwise 401 `Unauthorized: missing token` or `Unauthorized: invalid token` |
| Http.AcceptedBearerAuthenticates | server/app.js:52-67 | a well-formed header with an accepted token authenticates as that token's user |
| Upload.StoredFilename | server/routes/upload.js:41-45 | the stored name is non-empty, has no separator and has the extension of the client's name |
| Upload.DispatchFollowsClientName | server/routes/upload.js:41-45 | the worker dispatches a stored upload on the client name's extension |
| Upload.FileFilter | server/routes/upload.js:54-63 | a type is accepted iff it starts with `image/` or `video/`; otherwise the error names the type |
| Upload.Receive | server/routes/upload.js:48-64 | receiving succeeds iff there are at most 10 files and each passes the filter and the 100 MB limit; the stored files then follow the received ones in order |
| Upload.FirstRejectionNone | server/routes/upload.js:48-64 | no rejection from a position on iff the count fits and every later file is admitted |
| Upload.RejectedTypeRefused | server/routes/upload.js:54-63 | the first file of a rejected type is refused with the filter's message |
| Upload.UploadErrorReply | server/routes/upload.js:98-112 | every upload error is answered 400; the limit codes get fixed texts, any other error its message, or `Upload failed` |
| Upload.RejectedTypeReply | server/routes/upload.js:107-109 | a rejected type reaches the client as 400 `Unsupported file type: <type>` |
| Upload.SaveFile | server/routes/upload.js:133-180 | one file's iteration completes exactly when its first `save` returns and, when enqueueing failed or there is no queue, its second `save` returns; a completed file ends `queued` if enqueued and `failed` with the reason otherwise, and a task is added iff it stays `queued`; when a call throws, nothing has landed, or only the `queued` document if it was the second `save` |
| Upload.ProcessFrom | server/routes/upload.js:121-188 | at most one document per file, in upload order, each with the status and error its file ends with; exactly one per file when no call threw |
| Upload.ProcessFromAborts | server/routes/upload.js:121-196 | the loop aborts exactly when some file's store calls do not all return, and then it stopped at the first such file, with one document for each file before it |
| Upload.ProcessWrites | server/routes/upload.js:133-180 | every write of the loop sets `queued` or `failed` on a record created for one of its files |
| Upload.StepWrites | server/routes/upload.js:145-179 | one file's writes target only its own record |
| Upload.ProcessAdds | server/routes/upload.js:149-167 | the tasks added are exactly those of the documents that stay `queued`, in order |
| Upload.ProcessEmissions | server/routes/upload.js:182-185 | with a socket server each document is emitted once, in order, to its owner's room; without one, none are |
| Upload.HandleUpload | server/routes/upload.js:97-197 | upload errors and empty uploads write nothing; a non-empty upload is answered 200 exactly when every file's store calls return, and otherwise 500 `Upload failed`; a 200 reply carries `<n> file(s) uploaded successfully` and one document per file in order |
| Upload.UploadNeverAdvances | server/routes/upload.js:133-180 | the upload route never writes `processing` or `completed` |
| Upload.UploadEnqueuesQueued | server/routes/upload.js:149-167 | on success the tasks added are exactly those of the `queued` documents |
| Upload.NoQueueFailsAll | server/routes/upload.js:145-196 | without a queue no task is added; a non-empty upload is answered 200 exactly when neither `save` of any file throws, and then every document is `failed` with `Processing queue unavailable` |
| Upload.StopsAtFirstFailure | server/routes/upload.js:121-196 | when file `n` is the first whose store calls do not all return, the loop aborts with exactly the documents of the files before it |
| Upload.AbortedUpload | server/routes/upload.js:121-196 | the reply is then 500 `Upload failed`, and the tasks added and the events emitted are exactly those of the files before `n` |
| Upload.AbortedUploadStore | server/routes/upload.js:133-196 | the store it leaves holds each earlier file's record with its final status; the failing file's record exists iff its first `save` landed, and is then `queued`; no later file has a record |
| Upload.ProcessStoreEffect | server/routes/upload.js:133-188 | after the loop, every file before the point where it stopped (every file when no call threw) has its record with the status its document ends with |
| Upload.ProcessAbortEffect | server/routes/upload.js:145-196 | after an aborted loop the failing file's record exists iff its first `save` landed, and is then `queued`; no later file's record exists |
| Upload.AbortedWrites | server/routes/upload.js:121-188 | an aborted loop's writes are those of the files before the failing one, all of which saved, followed by the failing file's own |
| Upload.UnsavedStoreEffect | server/routes/upload.js:145-179 | a file whose store calls do not all return leaves its record iff its first `save` landed, and then `queued`, and creates no other record |
| Upload.SavedLeavesLaterAbsent | server/routes/upload.js:133-180 | files that all save never create the record of a file after them |
| Upload.StepStoreEffect | server/routes/upload.js:145-179 | one saved file adds exactly its id to the store, with its final status |
| Upload.UploadStoreEffect | server/routes/upload.js:121-188 | after a successful upload each file's record is `queued` iff it was enqueued and `failed` iff it was not |
| Upload.ListJobs | server/routes/upload.js:81-90 | the listing is 500 `Failed to fetch jobs` iff the query fails; otherwise exactly the requester's records, newest first |
| PosixPath.Resolve | server/app.js:78 | resolved segments are all proper (non-empty, not `.` or `..`, no separator) |
| PosixPath.JoinProperLast | server/app.js:78 | joining a proper name onto a directory ends the segments with that name |
| ServerApp.EmitJobUpdate | server/app.js:146-166 | the relay emits iff both backends answer, the queue entry names a job and the store holds it; it emits that stored record to its owner's room; backend failures are caught |
| ServerApp.OnQueueEvent | server/app.js:168-185 | `completed`, `failed` and `active` run the relay; `error` emits nothing |
| ServerApp.JobEventsAgree | server/app.js:168-181 | the three job events for one queue job do the same thing; the failure reason plays no part |
| ServerApp.RelayAll | server/app.js:168-185 | over a sequence of events at most one message is sent per event |
| ServerApp.RelayOnlyToOwners | server/app.js:151-156 | every message goes to the room of the owner of the record it carries, and that record is the stored one |
| ServerApp.CompletedEventAfterAttempt | server/app.js:168-171 | after an attempt returns, its `completed` event sends the `completed` record with its thumbnail name to the owner |
| ServerApp.RelayReadsStore | server/app.js:148-156 | with both backends up, the relay sends the record its queue entry names, as the store holds it now |
| ServerApp.GuardAsWrittenAdmitsSibling | server/app.js:78-84 | as written, `../uploads<suffix>/<file>` passes the guard although it resolves outside the uploads directory |
| ServerApp.GuardKeepsInside | server/app.js:78-84 | with the separator added, every admitted path resolves to the uploads directory or below it |
| ServerApp.GuardAdmitsPlainNames | server/app.js:78-84 | a plain file name is read from `uploads/<name>` and admitted whenever the file exists |
| ServerApp.Download | server/app.js:75-96 | the route as written: 401 from authentication; 404 `File not found.` unless the file exists and its path starts with `<appDir>/uploads`; 500 when sending fails; otherwise 200 with that path under the requested name |
| ServerApp.DownloadCorrected | server/app.js:75-96 | the same route with the separator added to the guard: 200 exactly when authenticated, admitted by the corrected guard and sent |
| ServerApp.GuardNarrows | server/app.js:81 | every path the corrected guard admits, the guard as written admits too |
| ServerApp.CorrectionOnlyNarrows | server/app.js:75-96 | the two routes differ only on paths the guard as written admits and the corrected one refuses; whatever the corrected route serves, the route as written serves identically |
| ServerApp.DownloadServesPlainNames | server/app.js:75-96 | an authenticated request for a stored plain name (such as a thumbnail name) whose file exists is served 200 from `uploads/<name>` by both routes when sending succeeds |
| ServerApp.DownloadAsWrittenServesSibling | server/app.js:75-96 | the route as written serves `<appDir>/uploads<suffix>/<file>` for `../uploads<suffix>/<file>`; the corrected route answers 404 to the same request |
| ServerApp.DownloadCorrectedStaysInside | server/app.js:75-96 | every file the corrected route serves lies at or below the uploads directory |
| JobList.FindIndex | client/src/components/JobList.tsx:39 | the first position holding the id, or -1 iff no entry holds it |
| JobList.ApplyJobUpdate | client/src/components/JobList.tsx:38-48 | a listed id is replaced at its first position with everything else kept; a new id is prepended |
| JobList.UpdateIsAssignment | client/src/components/JobList.tsx:38-48 | seen by id, an update is a map assignment: the id shows the new job and every other id shows what it showed |
| JobList.UpdateIdempotent | client/src/components/JobList.tsx:38-48 | applying the same update twice equals applying it once |
| JobList.UpdateKeepsUnique | client/src/components/JobList.tsx:38-48 | unique ids stay unique and exactly the updated id is added to the ids |
| JobList.Step | client/src/components/JobList.tsx:36-74 | a fetch ends loading; a successful fetch replaces the list and clears the error; a failed one keeps the list and sets `Failed to fetch jobs` |
| JobList.RunSnoc | client/src/components/JobList.tsx:36-74 | events apply in arrival order, one at a time |
| JobList.FetchReplacesList | client/src/components/JobList.tsx:57-66 | after a successful fetch the list is exactly the server's answer, whatever updates came before |
| JobList.RunKeepsUnique | client/src/components/JobList.tsx:36-74 | ids stay unique across any event sequence whose fetched lists have unique ids |
| JobList.FilenameFromPath | client/src/components/JobList.tsx:122-128 | nothing for a missing or empty path; otherwise the last `/`-separated part after mapping `\` to `/`, free of both separators |
| JobList.PlainNameShownAsIs | client/src/components/JobList.tsx:122-128 | a non-empty separator-free name is shown unchanged |
| JobList.FilenameIdempotent | client/src/components/JobList.tsx:122-128 | the function is idempotent on its non-empty results |
| JobList.NameAfterDirectoryShown | client/src/components/JobList.tsx:122-128 | a plain name after either separator is what is shown |
| JobList.DownloadRequest | client/src/components/JobList.tsx:84-92 | an empty name sends nothing; any other is requested from `/api/download/<name>` |
| JobList.DownloadClick | client/src/components/JobList.tsx:228-230 | a click requests something iff `thumbnailFile` is truthy and its displayed name is non-empty, and the request carries a separator-free name |
| JobList.StoredThumbnailDownloads | client/src/components/JobList.tsx:201-230 | the worker's stored thumbnail name is shown and requested as is, and the corrected server guard serves it from the uploads directory |
| JobList.DownloadAlert | client/src/components/JobList.tsx:109-118 | the alert shows the reply's `error` field if non-empty, else the error's message, else a bare `Failed to download file` |
| JobList.FileLabel | client/src/components/JobList.tsx:163-178 | the label is the client's name if non-empty; otherwise the last `/`-part of the stored path (after mapping `\` to `/`) if that is non-empty; otherwise `Unknown file` |
| UploadFormState.RoundPercent | client/src/components/UploadForm.tsx:53 | `Math.round(loaded*100/total)` exactly: the nearest whole percentage, halves up, at most 100 when nothing overshoots |
| UploadFormState.SelectMessage | client/src/components/UploadForm.js:72-80 | the message is never empty and is the server's `error` or one of the three fixed texts |
| UploadFormState.MessagePriority | client/src/components/UploadForm.js:72-80 | the message is the first applicable of: the server's `error`, `ECONNABORTED` → timeout text, `Network Error` → network text; else the default |
| UploadFormState.RemoveAt | client/src/components/UploadForm.js:89-92 | removal drops exactly position `i` and keeps the rest in order; an out-of-range `i` leaves the list equal |
| UploadFormState.RemoveAtTakesOne | client/src/components/UploadForm.js:89-92 | removal takes exactly one copy of the removed file out of the selection |
| UploadFormState.ChooseFiles | client/src/components/UploadForm.js:14-19 | choosing replaces the selection and clears error and success |
| UploadFormState.Submit | client/src/components/UploadForm.js:21-37 | with no files, `Please select at least one file` and no request; otherwise exactly the selection is sent and the upload starts at 0% |
| UploadFormState.Succeed | client/src/components/UploadForm.js:55-58 | after success the selection is empty, success is shown, progress is 0 and no upload runs |
| UploadFormState.Fail | client/src/components/UploadForm.js:82-86 | after failure the message is shown, progress is 0, no upload runs and the selection is kept |
| UploadFormJs.ProgressAsWritten | client/src/components/UploadForm.js:47-51 | an unknown total gives `NaN`, a zero total `NaN` or `Infinity`, a positive total the rounded percentage |
| UploadFormJs.FailureMessage | client/src/components/UploadForm.js:68-82 | every failure goes through the same message selection |
| UploadFormJs.Label | client/src/components/UploadForm.js:202-209 | idle: `Upload N File`, ending in `s` iff N ≠ 1; uploading: `Uploading... p%` |
| UploadFormJs.UnguardedProgressShowsNaN | client/src/components/UploadForm.js:47-51 | as written, the label can read `Uploading... NaN%` or `Uploading... Infinity%` |
| UploadFormTsx.GuardedProgress | client/src/components/UploadForm.tsx:51-57 | an unknown or zero total leaves progress as it was; a positive total gives the rounded percentage |
| UploadFormTsx.FailureMessage | client/src/components/UploadForm.tsx:74-92 | request errors use the same selection as the other variant; anything else gives `An unexpected error occurred` |
| UploadFormTsx.ProgressStaysSound | client/src/components/UploadForm.tsx:51-57 | across any events, progress stays a whole number within 0..100, never `NaN` or `Infinity` |
| UploadFormTsx.RequestsNeverEmpty | client/src/components/UploadForm.tsx:29-38 | no request is ever sent without files, and earlier requests are never altered |
| UploadFormTsx.UploadSettles | client/src/components/UploadForm.tsx:61-96 | both the success and the failure path end with no upload running and progress 0, with the right notice |
| UploadFormTsx.NullFileListIsEmpty | client/src/components/UploadForm.tsx:19-24 | a null file list is an empty selection, and submit is then disabled |
| UploadFormTsx.Label | client/src/components/UploadForm.tsx:197-204 | idle: `Upload`; uploading: `Uploading... p%` |
| UploadFormTsx.LabelShowsNumber | client/src/components/UploadForm.tsx:199-201 | with sound progress the label shows a whole percentage |

## Left out

- The database, Redis and the queue library are replaced by the answers they give. This includes the queue's delivery, retry and backoff timing. Only the options handed to the queue (priority 1, 3 attempts, exponential backoff from 2000 ms) are modelled, and deliveries are a given sequence of attempt environments.
- Worker concurrency and process shutdown are not modelled. Each attempt is a whole, uninterleaved unit.
- sharp resizing and JPEG encoding, and ffmpeg frame extraction, are not modelled. Their outcomes are parameters: an error message or an exit status.
- Whether fields the schema does not declare (`error`, `updatedAt`, `originalName`, `filename`, …) persist in the store is not modelled. That is the database library's strict-mode behaviour. The writes record them, but `ApplyWrite` stores only `status` and `thumbnailFile`.
- `updatedAt` timestamps are not modelled. The clock only enters through the thumbnail name and `createdAt`.
- Media.KindOfBySuffix: `toLowerCase` is modelled for ASCII letters only.
- Duration.MidpointMillis: the seek position is an exact integer. The float text passed to `-ss` is not modelled.
- PosixPath.Resolve: only absolute paths are modelled. That is the only form the download route builds.
- ServerApp.Download: the route's outer `catch` (500 `Server error during download.`) is not modelled. Nothing in the modelled logic throws there.
- A store write whose call throws is taken not to have landed. A write that is committed but then reports an error is not modelled.
- Invalid record ids (the database's cast errors) are not modelled. Ids are plain strings.
- Upload.Receive: the storage engine's exact interleaving of filter, size and count checks with the files already written to disk is not modelled. Neither is the clean-up of those files.
- `formatFileSize` in both form variants is not modelled. It uses `Math.log` and `toFixed`, which are floating point.
- UploadFormState.RoundPercent: the division is exact. Floating-point rounding of `loaded*100/total` is not modelled.
- The 5-second timer that hides the success notice appears only as a `SuccessExpired` event.
- JSX rendering, the status badge colours and the image fallback are not modelled.
- The socket connection setup and the room join are not modelled. server/sockets/socket.js is not part of this model; it duplicates the relay but looks records up by the queue job id.
- Registration, login and the rest of the client shell are not part of this model. These are server/routes/auth.js, client/src/components/Auth.js and client/src/App.js.
- Token verification is a lookup in a map of accepted tokens. JWT signing and expiry are not modelled.

## Findings

| source | as written | input that shows it | evidently intended | confidence | as-written member | corrected member |
|---|---|---|---|---|---|---|
| server/app.js:78-84 | the guard checks that the joined path starts with `<appDir>/uploads`, without a trailing separator | filename `../uploads2/secret.txt` (sent as `..%2Fuploads2%2Fsecret.txt`) with `<appDir>/uploads2/secret.txt` present: it resolves outside `uploads` yet passes | only paths inside the uploads directory are served | medium, not executed | ServerApp.DownloadAsWrittenServesSibling | ServerApp.DownloadCorrectedStaysInside |
| client/src/components/UploadForm.js:47-51 | progress is `Math.round(loaded*100/total)` with no check on `total` | a progress event with no total (or a total of 0) | the label shows a whole percentage (the .tsx variant guards `total`) | high, not executed | UploadFormJs.UnguardedProgressShowsNaN | UploadFormTsx.ProgressStaysSound |

Details of the two findings:

- **The download guard.** `ServerApp.DownloadGuardAsWritten` is the guard as
  written. `ServerApp.GuardAsWrittenAdmitsSibling` shows, for every absolute
  app directory, non-empty suffix and plain file name, that the sibling path
  passes it. `ServerApp.DownloadGuard` adds the separator.
  `ServerApp.GuardKeepsInside` proves it admits only paths inside the uploads
  directory, and `ServerApp.GuardAdmitsPlainNames` shows it still admits every
  plain name. `ServerApp.Download` is the route as written and
  `ServerApp.DownloadCorrected` the route with the corrected guard.
  `ServerApp.DownloadAsWrittenServesSibling` shows the first serving the
  sibling file and the second refusing it. `ServerApp.DownloadCorrectedStaysInside`
  proves the corrected route serves only files inside the uploads directory,
  and `ServerApp.DownloadServesPlainNames` that both serve every stored plain
  name.
- **The upload progress.** `UploadFormJs.ProgressAsWritten` is the
  JavaScript variant's computation. `UploadFormTsx.GuardedProgress` is the
  guarded version, which the TypeScript variant uses.
  `UploadFormTsx.ProgressStaysSound` proves its figure is always a whole
  number from 0 to 100.
