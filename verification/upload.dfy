/** The upload route: the storage filename rule, the MIME filter and size
    and count limits, the mapping of upload errors to replies, the per-file
    job creation and enqueueing, and the per-owner listing. The store, the
    queue and the socket server are replaced by the answers they give. */
module Upload {
  import opened Wrappers
  import opened Strings
  import opened JobModel
  import opened TaskQueue
  import opened Media
  import opened Http

  const MaxFileSize: nat := 100 * 1024 * 1024
  const MaxFiles: nat := 10

  /** A file as the client sends it, with the clock and random values the
      storage engine draws when naming it. */
  datatype Incoming = Incoming(originalName: string, mimetype: string, size: nat, timestamp: nat, random: nat)

  /** A file once stored on disk under its generated name. */
  datatype StoredFile = StoredFile(originalName: string, mimetype: string, size: nat, filename: string)

  /** `<timestamp>-<random><ext>`: the stored name keeps the extension of the
      client's name. */
  function StoredFilename(timestamp: nat, random: nat, originalName: string): (r: string)
    ensures '/' !in r && r != ""
    ensures ExtName(r) == ExtName(originalName)
  {
    var prefix := NatToString(timestamp) + "-" + NatToString(random);
    var ext := ExtName(originalName);
    PlainPrefix(NatToString(timestamp), NatToString(random));
    ExtNameOfPlainName(prefix, ext);
    prefix + ext
  }

  lemma PlainPrefix(a: string, b: string)
    requires AllDigits(a) && AllDigits(b) && a != ""
    ensures var p := a + "-" + b;
      p != "" && '/' !in p && '.' !in p && p[0] != '.'
  {
    var p := a + "-" + b;
    assert forall i :: 0 <= i < |a| ==> IsDigit(a[i]);
    assert forall i :: 0 <= i < |b| ==> IsDigit(b[i]);
    assert forall i :: 0 <= i < |p| ==> p[i] == '-' || IsDigit(p[i]);
  }

  /** A name made of a dot-free, separator-free, non-empty stem and an
      extension has that extension. */
  lemma ExtNameOfPlainName(stem: string, ext: string)
    requires stem != "" && '/' !in stem && '.' !in stem
    requires ext == "" || (ext[0] == '.' && '.' !in ext[1..] && '/' !in ext)
    ensures '/' !in stem + ext
    ensures ExtName(stem + ext) == ext
  {
    var s := stem + ext;
    NoSeparatorInConcat(stem, ext);
    PlainBaseName(s);
    LastDotOfPlainName(stem, ext);
    assert s[0] == stem[0];
    if ext != "" {
      assert s[|stem|..] == ext;
    }
  }

  lemma NoSeparatorInConcat(a: string, b: string)
    requires '/' !in a && '/' !in b
    ensures '/' !in a + b
  {
  }

  /** The last dot of such a name is the extension's, if it has one. */
  lemma LastDotOfPlainName(stem: string, ext: string)
    requires '.' !in stem
    requires ext == "" || (ext[0] == '.' && '.' !in ext[1..])
    ensures LastIndexOf(stem + ext, '.') == if ext == "" then -1 else |stem|
  {
    var s := stem + ext;
    if ext == "" {
      assert s == stem;
    } else {
      assert s[|stem|] == '.';
      assert s[|stem| + 1..] == ext[1..];
      LastIndexOfAt(s, '.', |stem|);
    }
  }

  /** Where the storage engine puts a stored file: `uploads/<name>`. */
  function UploadPath(filename: string): string {
    UploadsDir + "/" + filename
  }

  /** The worker dispatches a stored upload on the extension of the name the
      client sent. */
  lemma DispatchFollowsClientName(timestamp: nat, random: nat, originalName: string)
    ensures ExtName(UploadPath(StoredFilename(timestamp, random, originalName))) == ExtName(originalName)
    ensures KindOf(UploadPath(StoredFilename(timestamp, random, originalName))) == KindOf(originalName)
  {
    StoredNameDispatch(StoredFilename(timestamp, random, originalName), originalName);
  }

  lemma StoredNameDispatch(name: string, originalName: string)
    requires '/' !in name && name != "" && ExtName(name) == ExtName(originalName)
    ensures ExtName(UploadPath(name)) == ExtName(originalName)
    ensures KindOf(UploadPath(name)) == KindOf(originalName)
  {
    DispatchUnderDirectory(UploadsDir, name, originalName);
  }

  lemma DispatchUnderDirectory(dir: string, name: string, originalName: string)
    requires '/' !in name && name != "" && ExtName(name) == ExtName(originalName)
    ensures ExtName(dir + "/" + name) == ExtName(originalName)
    ensures KindOf(dir + "/" + name) == KindOf(originalName)
  {
    var path := dir + "/" + name;
    assert BaseName(path) == BaseName(name) by {
      BaseNameAfterDirectory(dir, name);
      PlainBaseName(name);
    }
    ExtNameOfBaseName(path, name);
    assert ExtName(path) == ExtName(originalName);
    SameExtensionSameKind(path, originalName);
  }

  /** The `fileFilter` check: image and video types are accepted, any other
      type is rejected with a message naming it. */
  function FileFilter(mimetype: string): (r: Option<string>)
    ensures r.None? <==> StartsWith(mimetype, "image/") || StartsWith(mimetype, "video/")
    ensures r.Some? ==> r.value == "Unsupported file type: " + mimetype
  {
    if StartsWith(mimetype, "image/") || StartsWith(mimetype, "video/") then None
    else Some("Unsupported file type: " + mimetype)
  }

  /** An error of the storage engine: a limit code, or a filter error with
      only a message. */
  datatype UploadError = UploadError(code: Option<string>, message: string)

  const FileTooLarge: string := "File too large. Maximum size is 100MB."
  const TooManyFiles: string := "Too many files. Maximum is 10 files."

  /** Receiving the multipart files, in order: the eleventh file raises the
      count limit, a rejected type raises the filter's error, and an
      oversized file raises the size limit. When every file is accepted,
      each is stored under its generated name. */
  function Receive(incoming: seq<Incoming>): (r: Result<seq<StoredFile>, UploadError>)
    ensures r.Ok? ==> |r.value| == |incoming|
    ensures r.Ok? ==> forall k :: 0 <= k < |incoming| ==> r.value[k] == StoredOf(incoming[k])
    ensures r.Ok? <==> |incoming| <= MaxFiles && forall k :: 0 <= k < |incoming| ==> Admitted(incoming[k])
  {
    FirstRejectionNone(incoming, 0);
    match FirstRejection(incoming, 0)
    case Some(e) => Err(e)
    case None => Ok(seq(|incoming|, k requires 0 <= k < |incoming| => StoredOf(incoming[k])))
  }

  /** A file passes the filter and the size limit. */
  predicate Admitted(f: Incoming) {
    FileFilter(f.mimetype).None? && f.size <= MaxFileSize
  }

  /** A received file under its generated name. */
  function StoredOf(f: Incoming): StoredFile {
    StoredFile(f.originalName, f.mimetype, f.size, StoredFilename(f.timestamp, f.random, f.originalName))
  }

  /** The first error met from position `i` on, if any. */
  function FirstRejection(incoming: seq<Incoming>, i: nat): Option<UploadError>
    requires i <= |incoming|
    decreases |incoming| - i
  {
    if i == |incoming| then
      if |incoming| > MaxFiles then Some(UploadError(Some("LIMIT_FILE_COUNT"), "Too many files")) else None
    else if i >= MaxFiles then Some(UploadError(Some("LIMIT_FILE_COUNT"), "Too many files"))
    else
      match FileFilter(incoming[i].mimetype)
      case Some(m) => Some(UploadError(None, m))
      case None =>
        if incoming[i].size > MaxFileSize then Some(UploadError(Some("LIMIT_FILE_SIZE"), "File too large"))
        else FirstRejection(incoming, i + 1)
  }

  /** No error is met from position `i` on exactly when the count is within
      the limit and every remaining file is admitted. */
  lemma {:induction false} FirstRejectionNone(incoming: seq<Incoming>, i: nat)
    requires i <= |incoming|
    ensures FirstRejection(incoming, i).None?
            <==> (|incoming| <= MaxFiles && forall k :: i <= k < |incoming| ==> Admitted(incoming[k]))
    decreases |incoming| - i
  {
    if i < |incoming| && i < MaxFiles {
      FirstRejectionNone(incoming, i + 1);
    }
  }

  /** A file of a rejected type is refused with the filter's message, unless
      an earlier file or the count limit is refused first. */
  lemma {:induction false} RejectedTypeRefused(incoming: seq<Incoming>, i: nat)
    requires i < |incoming| <= MaxFiles
    requires FileFilter(incoming[i].mimetype).Some?
    requires forall k :: 0 <= k < i ==> Admitted(incoming[k])
    ensures Receive(incoming) == Err(UploadError(None, FileFilter(incoming[i].mimetype).value))
  {
    RefusedAt(incoming, 0, i);
  }

  lemma {:induction false} RefusedAt(incoming: seq<Incoming>, j: nat, i: nat)
    requires j <= i < |incoming| <= MaxFiles
    requires FileFilter(incoming[i].mimetype).Some?
    requires forall k :: j <= k < i ==> Admitted(incoming[k])
    ensures FirstRejection(incoming, j) == Some(UploadError(None, FileFilter(incoming[i].mimetype).value))
    decreases i - j
  {
    if j < i {
      RefusedAt(incoming, j + 1, i);
    }
  }

  /** The reply to an upload error: always 400; the two limit codes get
      fixed texts, and any other error its own message, or `Upload failed`
      when that is empty. The check for `Unsupported file type` changes
      nothing: such a message is returned as it is either way. */
  function UploadErrorReply(e: UploadError): (r: Reply)
    ensures r.status == 400 && r.body.ErrorBody?
    ensures e.code == Some("LIMIT_FILE_SIZE") ==> r.body.error == FileTooLarge
    ensures e.code == Some("LIMIT_FILE_COUNT") ==> r.body.error == TooManyFiles
    ensures e.code != Some("LIMIT_FILE_SIZE") && e.code != Some("LIMIT_FILE_COUNT")
            ==> r.body.error == (if e.message == "" then "Upload failed" else e.message)
  {
    if e.code == Some("LIMIT_FILE_SIZE") then ErrorReply(400, FileTooLarge)
    else if e.code == Some("LIMIT_FILE_COUNT") then ErrorReply(400, TooManyFiles)
    else if Contains(e.message, "Unsupported file type") then ErrorReply(400, e.message)
    else ErrorReply(400, if e.message == "" then "Upload failed" else e.message)
  }

  /** A rejected type reaches the client as 400 with the filter's message. */
  lemma RejectedTypeReply(mimetype: string)
    requires !StartsWith(mimetype, "image/") && !StartsWith(mimetype, "video/")
    ensures UploadErrorReply(UploadError(None, FileFilter(mimetype).value))
            == ErrorReply(400, "Unsupported file type: " + mimetype)
  {
    var m := "Unsupported file type: " + mimetype;
    assert OccursAt(m, "Unsupported file type", 0);
  }

  /** What the store and the queue answer for one file: the new record's
      id, its creation time, and which calls throw. */
  datatype FileAnswers = FileAnswers(
    id: string,
    createdAt: nat,
    insertThrows: bool,   // the first `save`
    enqueueThrows: bool,  // `queue.add`
    markThrows: bool)     // the second `save`, after a queue failure

  /** A `jobUpdate` event sent to a socket room. */
  datatype Emission = Emission(room: string, doc: JobDoc)

  const EnqueueFailed: string := "Failed to add to processing queue"
  const QueueUnavailable: string := "Processing queue unavailable"

  /** The document built for a stored file. */
  function QueuedDoc(userId: string, f: StoredFile, a: FileAnswers): JobDoc {
    JobDoc(a.id, userId, UploadPath(f.filename), f.filename, f.originalName, f.mimetype, f.size, Queued, None, a.createdAt)
  }

  /** The task payload for a document. */
  function TaskOf(doc: JobDoc): QueueAdd {
    QueueAdd(TaskName, TaskData(doc.id, doc.originalFile, doc.userId), ThumbnailOptions)
  }

  /** Reference outcome of enqueueing: nothing when a queue exists and
      accepts the task, the reason otherwise. */
  function EnqueueFailure(queueAvailable: bool, a: FileAnswers): Option<string> {
    if !queueAvailable then Some(QueueUnavailable)
    else if a.enqueueThrows then Some(EnqueueFailed)
    else None
  }

  /** Reference document a file ends with: `queued` with no error when it
      was enqueued, `failed` with the reason otherwise. */
  function ExpectedDoc(userId: string, f: StoredFile, a: FileAnswers, queueAvailable: bool): JobDoc {
    var failure := EnqueueFailure(queueAvailable, a);
    QueuedDoc(userId, f, a).(status := if failure.None? then Queued else Failed, error := failure)
  }

  /** The effect of one loop iteration: the writes issued, the task added,
      the document as it ends, and whether every call returned. */
  datatype FileStep = FileStep(writes: seq<StoreWrite>, added: seq<QueueAdd>, doc: JobDoc, saved: bool)

  function MarkFailed(doc: JobDoc, message: string, markThrows: bool): FileStep {
    var failed := doc.(status := Failed, error := Some(message));
    if markThrows then FileStep([Insert(doc)], [], failed, false)
    else FileStep([Insert(doc), Update(doc.id, Failed, None, Some(message))], [], failed, true)
  }

  /** Reference condition: every store call for one file returns. The
      first `save` must return, and so must the second one, which is issued
      only when enqueueing failed. */
  predicate SaveSucceeds(a: FileAnswers, queueAvailable: bool) {
    !a.insertThrows && !(EnqueueFailure(queueAvailable, a).Some? && a.markThrows)
  }

  /** One iteration of the upload loop. It completes exactly when its store
      calls return. When one throws, the first `save` has either not landed,
      or landed the `queued` document with no task behind it. */
  function SaveFile(userId: string, f: StoredFile, a: FileAnswers, queueAvailable: bool): (s: FileStep)
    ensures s.saved <==> SaveSucceeds(a, queueAvailable)
    ensures s.saved ==> s.doc == ExpectedDoc(userId, f, a, queueAvailable)
    ensures s.added == (if s.saved && s.doc.status == Queued then [TaskOf(s.doc)] else [])
    ensures !s.saved ==> s.writes == (if a.insertThrows then [] else [Insert(QueuedDoc(userId, f, a))])
  {
    var doc := QueuedDoc(userId, f, a);
    if a.insertThrows then FileStep([], [], doc, false)
    else if queueAvailable then
      if a.enqueueThrows then MarkFailed(doc, EnqueueFailed, a.markThrows)
      else FileStep([Insert(doc)], [TaskOf(doc)], doc, true)
    else MarkFailed(doc, QueueUnavailable, a.markThrows)
  }

  /** The state after the loop: every write, task and emission issued, the
      documents collected for the reply, and whether a call threw. */
  datatype Progress = Progress(
    writes: seq<StoreWrite>,
    added: seq<QueueAdd>,
    emitted: seq<Emission>,
    jobs: seq<JobDoc>,
    aborted: bool)

  /** Every file from position `i` up to `n` has its store calls return. */
  predicate AllSaved(answers: nat -> FileAnswers, queueAvailable: bool, i: nat, n: nat) {
    forall k :: i <= k < n ==> SaveSucceeds(answers(k), queueAvailable)
  }

  /** The loop over the stored files from position `i` on. It stops at the
      first file whose store call throws (see `ProcessFromAborts`), and the
      documents it collected are those of the files before it. */
  function ProcessFrom(userId: string, files: seq<StoredFile>, answers: nat -> FileAnswers,
                       queueAvailable: bool, ioAvailable: bool, i: nat): (p: Progress)
    requires i <= |files|
    ensures !p.aborted ==> |p.jobs| == |files| - i
    ensures |p.jobs| <= |files| - i
    ensures forall k :: 0 <= k < |p.jobs| ==> p.jobs[k] == ExpectedDoc(userId, files[i + k], answers(i + k), queueAvailable)
    decreases |files| - i
  {
    if i == |files| then Progress([], [], [], [], false)
    else
      var s := SaveFile(userId, files[i], answers(i), queueAvailable);
      if !s.saved then Progress(s.writes, [], [], [], true)
      else
        var rest := ProcessFrom(userId, files, answers, queueAvailable, ioAvailable, i + 1);
        ExpectedDocsCons(userId, files, answers, queueAvailable, i, s.doc, rest.jobs);
        Progress(
          s.writes + rest.writes,
          s.added + rest.added,
          (if ioAvailable then [Emission(userId, s.doc)] else []) + rest.emitted,
          [s.doc] + rest.jobs,
          rest.aborted)
  }

  /** The loop from position `i` aborted exactly when some file from `i` on
      does not save, and then it stopped at the first such file: the files
      before it all saved. */
  predicate AbortsAtFirstFailure(p: Progress, answers: nat -> FileAnswers, queueAvailable: bool, i: nat, n: nat) {
    && (p.aborted <==> !AllSaved(answers, queueAvailable, i, n))
    && (p.aborted ==>
          && i + |p.jobs| < n
          && AllSaved(answers, queueAvailable, i, i + |p.jobs|)
          && !SaveSucceeds(answers(i + |p.jobs|), queueAvailable))
  }

  /** The loop aborts exactly when some file's store calls do not all
      return, and it stops at the first such file. */
  lemma {:induction false} ProcessFromAborts(userId: string, files: seq<StoredFile>, answers: nat -> FileAnswers,
                                             queueAvailable: bool, ioAvailable: bool, i: nat)
    requires i <= |files|
    ensures AbortsAtFirstFailure(ProcessFrom(userId, files, answers, queueAvailable, ioAvailable, i),
                                 answers, queueAvailable, i, |files|)
    decreases |files| - i
  {
    var p := ProcessFrom(userId, files, answers, queueAvailable, ioAvailable, i);
    if i < |files| {
      if SaveSucceeds(answers(i), queueAvailable) {
        var rest := ProcessFrom(userId, files, answers, queueAvailable, ioAvailable, i + 1);
        ProcessFromAborts(userId, files, answers, queueAvailable, ioAvailable, i + 1);
        SavedStep(userId, files, answers, queueAvailable, ioAvailable, i);
        AbortsCons(p, rest, answers, queueAvailable, i, |files|);
      } else {
        UnsavedStep(userId, files, answers, queueAvailable, ioAvailable, i);
        AllSavedCons(answers, queueAvailable, i, |files|);
        assert AllSaved(answers, queueAvailable, i, i);
      }
    }
  }

  /** A saving first file keeps where the rest of the loop stops, one
      position later. */
  lemma AbortsCons(p: Progress, rest: Progress, answers: nat -> FileAnswers, queueAvailable: bool, i: nat, n: nat)
    requires i < n
    requires SaveSucceeds(answers(i), queueAvailable)
    requires |p.jobs| == 1 + |rest.jobs| && p.aborted == rest.aborted
    requires AbortsAtFirstFailure(rest, answers, queueAvailable, i + 1, n)
    ensures AbortsAtFirstFailure(p, answers, queueAvailable, i, n)
  {
    AllSavedCons(answers, queueAvailable, i, n);
    AllSavedCons(answers, queueAvailable, i, i + |p.jobs|);
  }

  /** A run of files all saves exactly when its first file and the rest
      do. */
  lemma AllSavedCons(answers: nat -> FileAnswers, queueAvailable: bool, i: nat, n: nat)
    requires i < n
    ensures AllSaved(answers, queueAvailable, i, n)
            <==> SaveSucceeds(answers(i), queueAvailable) && AllSaved(answers, queueAvailable, i + 1, n)
  {
  }

  lemma ExpectedDocsCons(userId: string, files: seq<StoredFile>, answers: nat -> FileAnswers,
                         queueAvailable: bool, i: nat, doc: JobDoc, jobs: seq<JobDoc>)
    requires i < |files| && |jobs| <= |files| - (i + 1)
    requires doc == ExpectedDoc(userId, files[i], answers(i), queueAvailable)
    requires forall k :: 0 <= k < |jobs| ==> jobs[k] == ExpectedDoc(userId, files[i + 1 + k], answers(i + 1 + k), queueAvailable)
    ensures forall k :: 0 <= k < |[doc] + jobs| ==>
      ([doc] + jobs)[k] == ExpectedDoc(userId, files[i + k], answers(i + k), queueAvailable)
  {
    forall k | 0 <= k < |[doc] + jobs|
      ensures ([doc] + jobs)[k] == ExpectedDoc(userId, files[i + k], answers(i + k), queueAvailable)
    {
      if k > 0 {
        assert ([doc] + jobs)[k] == jobs[k - 1];
        assert i + 1 + (k - 1) == i + k;
      }
    }
  }

  /** The statuses the upload route writes. */
  predicate UploadStatus(s: Status) {
    s == Queued || s == Failed
  }

  /** The set of record ids the files from position `i` on are given. */
  function IdsFrom(answers: nat -> FileAnswers, i: nat, n: nat): set<string> {
    set k | i <= k < n :: answers(k).id
  }

  /** Every write of the loop sets `queued` or `failed` (never `processing`
      or `completed`) and targets a record created for one of its files. */
  lemma {:induction false} ProcessWrites(userId: string, files: seq<StoredFile>, answers: nat -> FileAnswers,
                                         queueAvailable: bool, ioAvailable: bool, i: nat)
    requires i <= |files|
    ensures WritesWithin(ProcessFrom(userId, files, answers, queueAvailable, ioAvailable, i).writes,
                         IdsFrom(answers, i, |files|))
    decreases |files| - i
  {
    if i < |files| {
      var s := SaveFile(userId, files[i], answers(i), queueAvailable);
      assert answers(i).id in IdsFrom(answers, i, |files|);
      StepWrites(userId, files[i], answers(i), queueAvailable);
      if s.saved {
        var rest := ProcessFrom(userId, files, answers, queueAvailable, ioAvailable, i + 1);
        ProcessWrites(userId, files, answers, queueAvailable, ioAvailable, i + 1);
        assert IdsFrom(answers, i + 1, |files|) <= IdsFrom(answers, i, |files|);
        var ws := s.writes + rest.writes;
        assert ProcessFrom(userId, files, answers, queueAvailable, ioAvailable, i).writes == ws;
        forall k | 0 <= k < |ws|
          ensures UploadStatus(ws[k].NewStatus()) && ws[k].Target() in IdsFrom(answers, i, |files|)
        {
          if k >= |s.writes| {
            assert ws[k] == rest.writes[k - |s.writes|];
          } else {
            assert ws[k] == s.writes[k];
          }
        }
      }
    }
  }

  /** Every write sets an upload status on one of the given records. */
  predicate WritesWithin(ws: seq<StoreWrite>, ids: set<string>) {
    forall k :: 0 <= k < |ws| ==> UploadStatus(ws[k].NewStatus()) && ws[k].Target() in ids
  }

  /** One file's writes set `queued` or `failed` on its own record. */
  lemma StepWrites(userId: string, f: StoredFile, a: FileAnswers, queueAvailable: bool)
    ensures var s := SaveFile(userId, f, a, queueAvailable);
      forall k :: 0 <= k < |s.writes| ==> UploadStatus(s.writes[k].NewStatus()) && s.writes[k].Target() == a.id
  {
  }

  /** The tasks added: one per document that stays `queued`, in file order,
      carrying its id, its stored path and its owner; none for the others. */
  function QueuedTasks(jobs: seq<JobDoc>): seq<QueueAdd> {
    if |jobs| == 0 then []
    else (if jobs[0].status == Queued then [TaskOf(jobs[0])] else []) + QueuedTasks(jobs[1..])
  }

  lemma {:induction false} ProcessAdds(userId: string, files: seq<StoredFile>, answers: nat -> FileAnswers,
                                       queueAvailable: bool, ioAvailable: bool, i: nat)
    requires i <= |files|
    ensures var p := ProcessFrom(userId, files, answers, queueAvailable, ioAvailable, i);
      p.added == QueuedTasks(p.jobs)
    decreases |files| - i
  {
    if i < |files| {
      var s := SaveFile(userId, files[i], answers(i), queueAvailable);
      if s.saved {
        ProcessAdds(userId, files, answers, queueAvailable, ioAvailable, i + 1);
        var p := ProcessFrom(userId, files, answers, queueAvailable, ioAvailable, i);
        var rest := ProcessFrom(userId, files, answers, queueAvailable, ioAvailable, i + 1);
        assert p.jobs == [s.doc] + rest.jobs;
        assert p.jobs[1..] == rest.jobs;
      }
    }
  }

  /** With a socket server, each collected document is emitted once, in
      order, to its owner's room; without one nothing is emitted. */
  lemma {:induction false} ProcessEmissions(userId: string, files: seq<StoredFile>, answers: nat -> FileAnswers,
                                            queueAvailable: bool, ioAvailable: bool, i: nat)
    requires i <= |files|
    ensures var p := ProcessFrom(userId, files, answers, queueAvailable, ioAvailable, i);
      EmitsJobs(userId, p.emitted, p.jobs, ioAvailable)
    decreases |files| - i
  {
    if i < |files| {
      var s := SaveFile(userId, files[i], answers(i), queueAvailable);
      if s.saved {
        var rest := ProcessFrom(userId, files, answers, queueAvailable, ioAvailable, i + 1);
        ProcessEmissions(userId, files, answers, queueAvailable, ioAvailable, i + 1);
        EmitsJobsCons(userId, s.doc, rest.emitted, rest.jobs, ioAvailable);
      }
    }
  }

  /** With a socket server each document is emitted once, in order, to its
      owner's room; without one, nothing is emitted. */
  predicate EmitsJobs(userId: string, emitted: seq<Emission>, jobs: seq<JobDoc>, ioAvailable: bool) {
    && (ioAvailable ==> |emitted| == |jobs|)
    && (!ioAvailable ==> emitted == [])
    && forall k :: 0 <= k < |emitted| ==> emitted[k] == Emission(userId, jobs[k])
  }

  lemma EmitsJobsCons(userId: string, doc: JobDoc, emitted: seq<Emission>, jobs: seq<JobDoc>, ioAvailable: bool)
    requires EmitsJobs(userId, emitted, jobs, ioAvailable)
    ensures EmitsJobs(userId, (if ioAvailable then [Emission(userId, doc)] else []) + emitted, [doc] + jobs, ioAvailable)
  {
    var e := (if ioAvailable then [Emission(userId, doc)] else []) + emitted;
    if ioAvailable {
      assert forall k :: 1 <= k < |e| ==> e[k] == emitted[k - 1] && ([doc] + jobs)[k] == jobs[k - 1];
    }
  }

  /** The whole upload run: writes, tasks, emissions and the reply. */
  datatype UploadRun = UploadRun(writes: seq<StoreWrite>, added: seq<QueueAdd>, emitted: seq<Emission>, reply: Reply)

  function UploadedMessage(n: nat): string {
    NatToString(n) + " file(s) uploaded successfully"
  }

  /** `POST /api/upload` after authentication: an upload error is answered
      before any write; an empty upload with 400 `No files uploaded`; a
      store call that throws with 500 `Upload failed`, after the earlier
      files' writes, tasks and emissions; otherwise 200 with the count and
      the documents in upload order. */
  function HandleUpload(userId: string, received: Result<seq<StoredFile>, UploadError>,
                        answers: nat -> FileAnswers, queueAvailable: bool, ioAvailable: bool): (u: UploadRun)
    ensures received.Err? ==> u == UploadRun([], [], [], UploadErrorReply(received.error))
    ensures received == Ok([]) ==> u == UploadRun([], [], [], ErrorReply(400, "No files uploaded"))
    ensures u.reply.status == 200 ==>
      && received.Ok? && |received.value| > 0
      && u.reply.body.UploadBody? && u.reply.body.message == UploadedMessage(|received.value|)
      && |u.reply.body.jobs| == |received.value|
      && forall k :: 0 <= k < |received.value| ==>
           u.reply.body.jobs[k] == ExpectedDoc(userId, received.value[k], answers(k), queueAvailable)
    ensures u.reply.status == 200 || u.reply.status == 400 || u.reply == ErrorReply(500, "Upload failed")
    ensures received.Ok? && |received.value| > 0 ==>
      (u.reply.status == 200 <==> AllSaved(answers, queueAvailable, 0, |received.value|))
  {
    match received
    case Err(e) => UploadRun([], [], [], UploadErrorReply(e))
    case Ok(files) =>
      if |files| == 0 then UploadRun([], [], [], ErrorReply(400, "No files uploaded"))
      else
        var p := ProcessFrom(userId, files, answers, queueAvailable, ioAvailable, 0);
        ProcessFromAborts(userId, files, answers, queueAvailable, ioAvailable, 0);
        if p.aborted then UploadRun(p.writes, p.added, p.emitted, ErrorReply(500, "Upload failed"))
        else UploadRun(p.writes, p.added, p.emitted, Reply(200, UploadBody(UploadedMessage(|p.jobs|), p.jobs)))
  }

  /** No write of the upload route sets `processing` or `completed`. */
  lemma UploadNeverAdvances(userId: string, received: Result<seq<StoredFile>, UploadError>,
                            answers: nat -> FileAnswers, queueAvailable: bool, ioAvailable: bool)
    ensures var u := HandleUpload(userId, received, answers, queueAvailable, ioAvailable);
      forall k :: 0 <= k < |u.writes| ==> UploadStatus(u.writes[k].NewStatus())
  {
    if received.Ok? && |received.value| > 0 {
      ProcessWrites(userId, received.value, answers, queueAvailable, ioAvailable, 0);
      var p := ProcessFrom(userId, received.value, answers, queueAvailable, ioAvailable, 0);
      assert HandleUpload(userId, received, answers, queueAvailable, ioAvailable).writes == p.writes;
    }
  }

  /** A task is added for exactly the documents that stay `queued`, with
      the payload and options of a thumbnail task. */
  lemma UploadEnqueuesQueued(userId: string, received: Result<seq<StoredFile>, UploadError>,
                             answers: nat -> FileAnswers, queueAvailable: bool, ioAvailable: bool)
    ensures var u := HandleUpload(userId, received, answers, queueAvailable, ioAvailable);
      u.reply.status == 200 ==> u.added == QueuedTasks(u.reply.body.jobs)
  {
    if received.Ok? && |received.value| > 0 {
      ProcessAdds(userId, received.value, answers, queueAvailable, ioAvailable, 0);
    }
  }

  /** Without a queue no task is ever added; the upload succeeds exactly
      when no first `save` and no second `save` throws, and then every
      document is `failed` with `Processing queue unavailable`. */
  lemma NoQueueFailsAll(userId: string, received: Result<seq<StoredFile>, UploadError>,
                        answers: nat -> FileAnswers, ioAvailable: bool)
    ensures var u := HandleUpload(userId, received, answers, false, ioAvailable);
      && u.added == []
      && (received.Ok? && |received.value| > 0 ==>
            (u.reply.status == 200 <==>
               forall k :: 0 <= k < |received.value| ==> !answers(k).insertThrows && !answers(k).markThrows))
      && (u.reply.status == 200 ==>
            forall k :: 0 <= k < |u.reply.body.jobs| ==>
              u.reply.body.jobs[k].status == Failed && u.reply.body.jobs[k].error == Some(QueueUnavailable))
  {
    if received.Ok? && |received.value| > 0 {
      var p := ProcessFrom(userId, received.value, answers, false, ioAvailable, 0);
      ProcessAdds(userId, received.value, answers, false, ioAvailable, 0);
      NoQueuedNoTasks(p.jobs);
    }
  }

  /** The documents the files before position `n` end with. */
  function ExpectedDocs(userId: string, files: seq<StoredFile>, answers: nat -> FileAnswers,
                        queueAvailable: bool, n: nat): seq<JobDoc>
    requires n <= |files|
  {
    seq(n, k requires 0 <= k < n => ExpectedDoc(userId, files[k], answers(k), queueAvailable))
  }

  /** The loop stops at the first file whose store calls do not all
      return, with the documents of the files before it. */
  lemma StopsAtFirstFailure(userId: string, files: seq<StoredFile>, answers: nat -> FileAnswers,
                            queueAvailable: bool, ioAvailable: bool, n: nat)
    requires n < |files|
    requires AllSaved(answers, queueAvailable, 0, n)
    requires !SaveSucceeds(answers(n), queueAvailable)
    ensures var p := ProcessFrom(userId, files, answers, queueAvailable, ioAvailable, 0);
      && p.aborted
      && p.jobs == ExpectedDocs(userId, files, answers, queueAvailable, n)
  {
    ProcessFromAborts(userId, files, answers, queueAvailable, ioAvailable, 0);
  }

  /** When file `n` is the first whose store calls do not all return, the
      reply is 500 `Upload failed`, and the tasks and events already issued
      are those of the files before it. */
  lemma AbortedUpload(userId: string, files: seq<StoredFile>, answers: nat -> FileAnswers,
                      queueAvailable: bool, ioAvailable: bool, n: nat)
    requires n < |files|
    requires AllSaved(answers, queueAvailable, 0, n)
    requires !SaveSucceeds(answers(n), queueAvailable)
    ensures var u := HandleUpload(userId, Ok(files), answers, queueAvailable, ioAvailable);
      var before := ExpectedDocs(userId, files, answers, queueAvailable, n);
      && u.reply == ErrorReply(500, "Upload failed")
      && u.added == QueuedTasks(before)
      && EmitsJobs(userId, u.emitted, before, ioAvailable)
  {
    StopsAtFirstFailure(userId, files, answers, queueAvailable, ioAvailable, n);
    ProcessAdds(userId, files, answers, queueAvailable, ioAvailable, 0);
    ProcessEmissions(userId, files, answers, queueAvailable, ioAvailable, 0);
  }

  /** What such an upload leaves in the store: the records of the files
      before `n` with their final statuses, the failing file's record
      `queued` exactly when its first `save` landed, and nothing for the
      files after it. */
  lemma AbortedUploadStore(store: Store, userId: string, files: seq<StoredFile>, answers: nat -> FileAnswers,
                           queueAvailable: bool, ioAvailable: bool, n: nat)
    requires n < |files|
    requires AllSaved(answers, queueAvailable, 0, n)
    requires !SaveSucceeds(answers(n), queueAvailable)
    requires FreshIds(store, answers, 0, |files|)
    ensures var after := ApplyWrites(store, HandleUpload(userId, Ok(files), answers, queueAvailable, ioAvailable).writes);
      && (forall k :: 0 <= k < n ==>
            answers(k).id in after
            && after[answers(k).id].status == ExpectedDoc(userId, files[k], answers(k), queueAvailable).status)
      && AbortedAt(after, files, answers, n)
  {
    StopsAtFirstFailure(userId, files, answers, queueAvailable, ioAvailable, n);
    ProcessStoreEffect(store, userId, files, answers, queueAvailable, ioAvailable, 0);
    ProcessAbortEffect(store, userId, files, answers, queueAvailable, ioAvailable, 0);
  }

  lemma {:induction false} NoQueuedNoTasks(jobs: seq<JobDoc>)
    requires forall k :: 0 <= k < |jobs| ==> jobs[k].status != Queued
    ensures QueuedTasks(jobs) == []
  {
    if |jobs| > 0 {
      NoQueuedNoTasks(jobs[1..]);
    }
  }

  /** Fresh, distinct record ids for the files from `i` up to `n`. */
  predicate FreshIds(store: Store, answers: nat -> FileAnswers, i: nat, n: nat) {
    && (forall k :: i <= k < n ==> answers(k).id !in store)
    && (forall j, k :: i <= j < k < n ==> answers(j).id != answers(k).id)
  }

  /** The record of each file from `i` up to `n` is present with the status
      its document ends with. */
  predicate RecordsPresent(after: Store, userId: string, files: seq<StoredFile>, answers: nat -> FileAnswers,
                           queueAvailable: bool, i: nat, n: nat)
    requires n <= |files|
  {
    forall k :: i <= k < n ==>
      answers(k).id in after
      && after[answers(k).id].status == ExpectedDoc(userId, files[k], answers(k), queueAvailable).status
  }

  /** The store after the loop: the record of each file whose store calls
      returned is present with the status its document ends with. */
  lemma {:induction false} ProcessStoreEffect(store: Store, userId: string, files: seq<StoredFile>,
                                              answers: nat -> FileAnswers, queueAvailable: bool,
                                              ioAvailable: bool, i: nat)
    requires i <= |files|
    requires FreshIds(store, answers, i, |files|)
    ensures var p := ProcessFrom(userId, files, answers, queueAvailable, ioAvailable, i);
      RecordsPresent(ApplyWrites(store, p.writes), userId, files, answers, queueAvailable, i, i + |p.jobs|)
    decreases |files| - i
  {
    var p := ProcessFrom(userId, files, answers, queueAvailable, ioAvailable, i);
    if i < |files| && SaveSucceeds(answers(i), queueAvailable) {
      var rest := ProcessFrom(userId, files, answers, queueAvailable, ioAvailable, i + 1);
      var mid := ApplyWrites(store, SaveFile(userId, files[i], answers(i), queueAvailable).writes);
      ProcessStoreStep(store, userId, files, answers, queueAvailable, ioAvailable, i);
      ProcessStoreEffect(mid, userId, files, answers, queueAvailable, ioAvailable, i + 1);
      SavedStep(userId, files, answers, queueAvailable, ioAvailable, i);
      StoreEffectCons(store, mid, p, rest, userId, files, answers, queueAvailable, i);
    } else if i < |files| {
      UnsavedStep(userId, files, answers, queueAvailable, ioAvailable, i);
    }
  }

  /** The step of `ProcessStoreEffect`, on the loop's results as values: the
      first file's record, which the later writes leave alone, joins the
      later files' records. */
  lemma StoreEffectCons(store: Store, mid: Store, p: Progress, rest: Progress, userId: string,
                        files: seq<StoredFile>, answers: nat -> FileAnswers, queueAvailable: bool, i: nat)
    requires i < |files| && |p.jobs| == 1 + |rest.jobs| <= |files| - i
    requires ApplyWrites(store, p.writes) == ApplyWrites(mid, rest.writes)
    requires answers(i).id in mid
    requires mid[answers(i).id].status == ExpectedDoc(userId, files[i], answers(i), queueAvailable).status
    requires forall k :: 0 <= k < |rest.writes| ==> rest.writes[k].Target() != answers(i).id
    requires RecordsPresent(ApplyWrites(mid, rest.writes), userId, files, answers, queueAvailable, i + 1, i + 1 + |rest.jobs|)
    ensures RecordsPresent(ApplyWrites(store, p.writes), userId, files, answers, queueAvailable, i, i + |p.jobs|)
  {
    OtherWritesPreserve(mid, rest.writes, answers(i).id);
    RecordsPresentCons(ApplyWrites(mid, rest.writes), userId, files, answers, queueAvailable, i, i + |p.jobs|);
  }

  lemma RecordsPresentCons(after: Store, userId: string, files: seq<StoredFile>, answers: nat -> FileAnswers,
                           queueAvailable: bool, i: nat, n: nat)
    requires i < n <= |files|
    requires answers(i).id in after
    requires after[answers(i).id].status == ExpectedDoc(userId, files[i], answers(i), queueAvailable).status
    requires RecordsPresent(after, userId, files, answers, queueAvailable, i + 1, n)
    ensures RecordsPresent(after, userId, files, answers, queueAvailable, i, n)
  {
  }

  /** The writes of the files from `i` up to `n`, each saving in turn. */
  function SavedWrites(userId: string, files: seq<StoredFile>, answers: nat -> FileAnswers,
                       queueAvailable: bool, i: nat, n: nat): seq<StoreWrite>
    requires i <= n <= |files|
    decreases n - i
  {
    if i == n then []
    else SaveFile(userId, files[i], answers(i), queueAvailable).writes
         + SavedWrites(userId, files, answers, queueAvailable, i + 1, n)
  }

  /** The writes of an aborted loop are those of the files before the
      failing one, which all saved, followed by the failing file's own. */
  predicate SplitsAtFailure(p: Progress, userId: string, files: seq<StoredFile>, answers: nat -> FileAnswers,
                            queueAvailable: bool, i: nat)
  {
    var n := i + |p.jobs|;
    p.aborted ==>
      && n < |files|
      && p.writes == SavedWrites(userId, files, answers, queueAvailable, i, n)
                     + SaveFile(userId, files[n], answers(n), queueAvailable).writes
  }

  lemma {:induction false} AbortedWrites(userId: string, files: seq<StoredFile>, answers: nat -> FileAnswers,
                                         queueAvailable: bool, ioAvailable: bool, i: nat)
    requires i <= |files|
    ensures SplitsAtFailure(ProcessFrom(userId, files, answers, queueAvailable, ioAvailable, i),
                            userId, files, answers, queueAvailable, i)
    decreases |files| - i
  {
    var p := ProcessFrom(userId, files, answers, queueAvailable, ioAvailable, i);
    if i == |files| {
      assert !p.aborted;
    } else if SaveSucceeds(answers(i), queueAvailable) {
      var rest := ProcessFrom(userId, files, answers, queueAvailable, ioAvailable, i + 1);
      AbortedWrites(userId, files, answers, queueAvailable, ioAvailable, i + 1);
      SavedStep(userId, files, answers, queueAvailable, ioAvailable, i);
      SplitsAtFailureCons(p, rest, userId, files, answers, queueAvailable, i);
    } else {
      UnsavedStep(userId, files, answers, queueAvailable, ioAvailable, i);
      var ws := SaveFile(userId, files[i], answers(i), queueAvailable).writes;
      assert ws == [] + ws;
    }
  }

  /** A saving file puts its writes in front of the split of the rest. */
  lemma SplitsAtFailureCons(p: Progress, rest: Progress, userId: string, files: seq<StoredFile>,
                            answers: nat -> FileAnswers, queueAvailable: bool, i: nat)
    requires i < |files|
    requires p.writes == SaveFile(userId, files[i], answers(i), queueAvailable).writes + rest.writes
    requires |p.jobs| == 1 + |rest.jobs| && p.aborted == rest.aborted
    requires SplitsAtFailure(rest, userId, files, answers, queueAvailable, i + 1)
    ensures SplitsAtFailure(p, userId, files, answers, queueAvailable, i)
  {
    if p.aborted {
      var n := i + |p.jobs|;
      var ws := SaveFile(userId, files[i], answers(i), queueAvailable).writes;
      var sw := SavedWrites(userId, files, answers, queueAvailable, i + 1, n);
      var fw := SaveFile(userId, files[n], answers(n), queueAvailable).writes;
      assert rest.writes == sw + fw;
      AppendAssoc(ws, sw, fw);
    }
  }

  lemma AppendAssoc<T>(xs: seq<T>, ys: seq<T>, zs: seq<T>)
    ensures xs + (ys + zs) == (xs + ys) + zs
  {
  }

  lemma UnsavedStep(userId: string, files: seq<StoredFile>, answers: nat -> FileAnswers,
                    queueAvailable: bool, ioAvailable: bool, i: nat)
    requires i < |files|
    requires !SaveSucceeds(answers(i), queueAvailable)
    ensures var p := ProcessFrom(userId, files, answers, queueAvailable, ioAvailable, i);
      && p.writes == SaveFile(userId, files[i], answers(i), queueAvailable).writes
      && p.jobs == [] && p.aborted
  {
  }

  /** A file that saves contributes its writes ahead of the rest of the
      loop's, one document, and does not end the loop. */
  lemma SavedStep(userId: string, files: seq<StoredFile>, answers: nat -> FileAnswers,
                  queueAvailable: bool, ioAvailable: bool, i: nat)
    requires i < |files|
    requires SaveSucceeds(answers(i), queueAvailable)
    ensures var p := ProcessFrom(userId, files, answers, queueAvailable, ioAvailable, i);
      var rest := ProcessFrom(userId, files, answers, queueAvailable, ioAvailable, i + 1);
      && p.writes == SaveFile(userId, files[i], answers(i), queueAvailable).writes + rest.writes
      && |p.jobs| == 1 + |rest.jobs|
      && p.aborted == rest.aborted
  {
  }

  /** The store after an aborted loop: the first failing file's record is
      present exactly when its first `save` landed, and then it is still
      `queued`; no later file's record exists. */
  lemma ProcessAbortEffect(store: Store, userId: string, files: seq<StoredFile>,
                           answers: nat -> FileAnswers, queueAvailable: bool, ioAvailable: bool, i: nat)
    requires i <= |files|
    requires FreshIds(store, answers, i, |files|)
    ensures var p := ProcessFrom(userId, files, answers, queueAvailable, ioAvailable, i);
      p.aborted ==> AbortedAt(ApplyWrites(store, p.writes), files, answers, i + |p.jobs|)
  {
    var p := ProcessFrom(userId, files, answers, queueAvailable, ioAvailable, i);
    if p.aborted {
      ProcessFromAborts(userId, files, answers, queueAvailable, ioAvailable, i);
      AbortedWrites(userId, files, answers, queueAvailable, ioAvailable, i);
      AbortedStore(store, p, userId, files, answers, queueAvailable, i);
    }
  }

  /** An aborted run, given by its writes: those of files that all saved,
      then those of the failing file. */
  lemma AbortedStore(store: Store, p: Progress, userId: string, files: seq<StoredFile>,
                     answers: nat -> FileAnswers, queueAvailable: bool, i: nat)
    requires i + |p.jobs| < |files|
    requires FreshIds(store, answers, i, |files|)
    requires AllSaved(answers, queueAvailable, i, i + |p.jobs|)
    requires !SaveSucceeds(answers(i + |p.jobs|), queueAvailable)
    requires p.writes == SavedWrites(userId, files, answers, queueAvailable, i, i + |p.jobs|)
                         + SaveFile(userId, files[i + |p.jobs|], answers(i + |p.jobs|), queueAvailable).writes
    ensures AbortedAt(ApplyWrites(store, p.writes), files, answers, i + |p.jobs|)
  {
    var n := i + |p.jobs|;
    SavedLeavesLaterAbsent(store, userId, files, answers, queueAvailable, i, n);
    FailingFileStore(store, p.writes, SavedWrites(userId, files, answers, queueAvailable, i, n),
                     userId, files, answers, queueAvailable, n);
  }

  /** The failing file's writes, after any writes that leave its id and
      the later ones free, leave the store as `AbortedAt` describes. */
  lemma FailingFileStore(store: Store, ws: seq<StoreWrite>, before: seq<StoreWrite>, userId: string,
                         files: seq<StoredFile>, answers: nat -> FileAnswers, queueAvailable: bool, n: nat)
    requires n < |files|
    requires ws == before + SaveFile(userId, files[n], answers(n), queueAvailable).writes
    requires !SaveSucceeds(answers(n), queueAvailable)
    requires FreshIds(ApplyWrites(store, before), answers, n, |files|)
    ensures AbortedAt(ApplyWrites(store, ws), files, answers, n)
  {
    var fw := SaveFile(userId, files[n], answers(n), queueAvailable).writes;
    ApplyWritesConcat(store, before, fw);
    UnsavedStoreEffect(ApplyWrites(store, before), userId, files, answers, queueAvailable, n);
  }

  /** Files that all save never create the record of a file after them. */
  lemma SavedLeavesLaterAbsent(store: Store, userId: string, files: seq<StoredFile>,
                               answers: nat -> FileAnswers, queueAvailable: bool, i: nat, n: nat)
    requires i <= n <= |files|
    requires AllSaved(answers, queueAvailable, i, n)
    requires FreshIds(store, answers, i, |files|)
    ensures FreshIds(ApplyWrites(store, SavedWrites(userId, files, answers, queueAvailable, i, n)), answers, n, |files|)
  {
    var ws := SavedWrites(userId, files, answers, queueAvailable, i, n);
    SavedWritesWithin(userId, files, answers, queueAvailable, i, n);
    forall k | n <= k < |files|
      ensures answers(k).id !in ApplyWrites(store, ws)
    {
      assert answers(k).id !in IdsFrom(answers, i, n);
      NoWriteTargets(ws, IdsFrom(answers, i, n), answers(k).id);
      OtherWritesKeepAbsent(store, ws, answers(k).id);
    }
  }

  /** The writes of files that all save target only those files' records. */
  lemma {:induction false} SavedWritesWithin(userId: string, files: seq<StoredFile>, answers: nat -> FileAnswers,
                                             queueAvailable: bool, i: nat, n: nat)
    requires i <= n <= |files|
    ensures WritesWithin(SavedWrites(userId, files, answers, queueAvailable, i, n), IdsFrom(answers, i, n))
    decreases n - i
  {
    if i < n {
      SavedWritesWithin(userId, files, answers, queueAvailable, i + 1, n);
      StepWrites(userId, files[i], answers(i), queueAvailable);
      IdsFromCons(answers, i, n);
      WritesWithinConcat(SaveFile(userId, files[i], answers(i), queueAvailable).writes,
                         SavedWrites(userId, files, answers, queueAvailable, i + 1, n),
                         {answers(i).id}, IdsFrom(answers, i + 1, n));
    }
  }

  /** Concatenated writes target the union of what each part targets. */
  lemma WritesWithinConcat(xs: seq<StoreWrite>, ys: seq<StoreWrite>, a: set<string>, b: set<string>)
    requires WritesWithin(xs, a) && WritesWithin(ys, b)
    ensures WritesWithin(xs + ys, a + b)
  {
    forall k | 0 <= k < |xs + ys|
      ensures UploadStatus((xs + ys)[k].NewStatus()) && (xs + ys)[k].Target() in a + b
    {
      if k < |xs| {
        assert (xs + ys)[k] == xs[k];
      } else {
        assert (xs + ys)[k] == ys[k - |xs|];
      }
    }
  }

  lemma IdsFromCons(answers: nat -> FileAnswers, i: nat, n: nat)
    requires i <= n
    ensures i == n ==> IdsFrom(answers, i, n) == {}
    ensures i < n ==> IdsFrom(answers, i, n) == {answers(i).id} + IdsFrom(answers, i + 1, n)
  {
    if i < n {
      assert answers(i).id in IdsFrom(answers, i, n);
    }
  }

  /** What an aborted loop leaves for the failing file `n` and the files
      after it. */
  predicate AbortedAt(after: Store, files: seq<StoredFile>, answers: nat -> FileAnswers, n: nat) {
    && (answers(n).id in after <==> !answers(n).insertThrows)
    && (answers(n).id in after ==> after[answers(n).id].status == Queued)
    && (forall k :: n < k < |files| ==> answers(k).id !in after)
  }

  /** A file whose store calls do not all return ends the loop: its record
      exists exactly when the first `save` landed, still `queued`, and the
      later files' ids stay free. */
  lemma UnsavedStoreEffect(store: Store, userId: string, files: seq<StoredFile>,
                           answers: nat -> FileAnswers, queueAvailable: bool, i: nat)
    requires i < |files|
    requires FreshIds(store, answers, i, |files|)
    requires !SaveSucceeds(answers(i), queueAvailable)
    ensures AbortedAt(ApplyWrites(store, SaveFile(userId, files[i], answers(i), queueAvailable).writes),
                      files, answers, i)
  {
    var a := answers(i);
    var ws := SaveFile(userId, files[i], a, queueAvailable).writes;
    if !a.insertThrows {
      assert ApplyWrites(store, ws) == ApplyWrites(ApplyWrite(store, ws[0]), []);
    }
  }

  /** One iteration of the loop, seen from the store: the first file's
      writes put its record in place, leave the later files' ids free, and
      the later writes never touch it. */
  lemma ProcessStoreStep(store: Store, userId: string, files: seq<StoredFile>,
                         answers: nat -> FileAnswers, queueAvailable: bool, ioAvailable: bool, i: nat)
    requires i < |files|
    requires FreshIds(store, answers, i, |files|)
    requires SaveSucceeds(answers(i), queueAvailable)
    ensures var a := answers(i);
      var s := SaveFile(userId, files[i], a, queueAvailable);
      var rest := ProcessFrom(userId, files, answers, queueAvailable, ioAvailable, i + 1);
      var mid := ApplyWrites(store, s.writes);
      && ApplyWrites(store, ProcessFrom(userId, files, answers, queueAvailable, ioAvailable, i).writes)
         == ApplyWrites(mid, rest.writes)
      && a.id in mid && mid[a.id].status == ExpectedDoc(userId, files[i], a, queueAvailable).status
      && (forall k :: i + 1 <= k < |files| ==> answers(k).id !in mid)
      && (forall k :: 0 <= k < |rest.writes| ==> rest.writes[k].Target() != a.id)
  {
    var p := ProcessFrom(userId, files, answers, queueAvailable, ioAvailable, i);
    var a := answers(i);
    var s := SaveFile(userId, files[i], a, queueAvailable);
    var rest := ProcessFrom(userId, files, answers, queueAvailable, ioAvailable, i + 1);
    assert s.saved && p.writes == s.writes + rest.writes;
    var mid := ApplyWrites(store, s.writes);
    StepStoreEffect(store, userId, files[i], a, queueAvailable);
    ApplyWritesConcat(store, s.writes, rest.writes);
    assert forall k :: i + 1 <= k < |files| ==> answers(k).id !in mid by {
      assert mid.Keys == store.Keys + {a.id};
    }
    ProcessWrites(userId, files, answers, queueAvailable, ioAvailable, i + 1);
    assert a.id !in IdsFrom(answers, i + 1, |files|);
    NoWriteTargets(rest.writes, IdsFrom(answers, i + 1, |files|), a.id);
  }

  /** Writes that all target a set of ids leave an id outside it alone. */
  lemma NoWriteTargets(ws: seq<StoreWrite>, ids: set<string>, id: string)
    requires WritesWithin(ws, ids)
    requires id !in ids
    ensures forall k :: 0 <= k < |ws| ==> ws[k].Target() != id
  {
  }

  /** One saved file leaves its record present with its final status, and
      adds exactly its id to the store. */
  lemma StepStoreEffect(store: Store, userId: string, f: StoredFile, a: FileAnswers, queueAvailable: bool)
    requires SaveFile(userId, f, a, queueAvailable).saved
    ensures var mid := ApplyWrites(store, SaveFile(userId, f, a, queueAvailable).writes);
      && mid.Keys == store.Keys + {a.id}
      && mid[a.id].status == ExpectedDoc(userId, f, a, queueAvailable).status
  {
    var doc := QueuedDoc(userId, f, a);
    var failure := EnqueueFailure(queueAvailable, a);
    var mark := if failure.Some? then Update(doc.id, Failed, None, failure) else Insert(doc);
    ApplyShortWrites(store, Insert(doc), mark);
    if failure.Some? {
      assert SaveFile(userId, f, a, queueAvailable).writes == [Insert(doc), mark];
    } else {
      assert SaveFile(userId, f, a, queueAvailable).writes == [Insert(doc)];
    }
  }

  /** Every file of a successful upload ends with exactly one record in the
      store: `queued` when enqueued, `failed` otherwise. */
  lemma UploadStoreEffect(store: Store, userId: string, files: seq<StoredFile>,
                          answers: nat -> FileAnswers, queueAvailable: bool, ioAvailable: bool)
    requires |files| > 0
    requires FreshIds(store, answers, 0, |files|)
    ensures var u := HandleUpload(userId, Ok(files), answers, queueAvailable, ioAvailable);
      var after := ApplyWrites(store, u.writes);
      u.reply.status == 200 ==> forall k :: 0 <= k < |files| ==>
        && answers(k).id in after
        && (after[answers(k).id].status == Queued <==> EnqueueFailure(queueAvailable, answers(k)).None?)
        && (after[answers(k).id].status == Failed <==> EnqueueFailure(queueAvailable, answers(k)).Some?)
  {
    ProcessStoreEffect(store, userId, files, answers, queueAvailable, ioAvailable, 0);
  }

  /** `GET /api/upload`: the requester's records, newest first, or 500 when
      the store query fails. */
  function ListJobs(userId: string, query: Result<seq<JobRecord>, string>): (r: Reply)
    ensures query.Err? <==> r == ErrorReply(500, "Failed to fetch jobs")
    ensures query.Ok? ==> r.status == 200 && r.body.ListBody?
    ensures query.Ok? ==> NewestFirst(r.body.records)
    ensures query.Ok? ==> forall x :: x in r.body.records <==> x in query.value && x.userId == userId
  {
    match query
    case Err(_) => ErrorReply(500, "Failed to fetch jobs")
    case Ok(records) =>
      forall x
        ensures x in ListByOwner(records, userId) <==> x in records && x.userId == userId
      {
        ListedIffOwned(records, userId, x);
      }
      Reply(200, ListBody(ListByOwner(records, userId)))
  }
}
