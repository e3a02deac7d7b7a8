/** One attempt of the thumbnail worker's task callback, as the sequence of
    job-store writes it issues. The store, the file system, the decoder and
    the image library are replaced by the answers they give (`AttemptEnv`).
    The worker checks no transition: every write overwrites the status. */
module Worker {
  import opened Wrappers
  import opened Strings
  import opened JobModel
  import opened TaskQueue
  import opened Media
  import opened Duration

  /** How the `processing` write (`findByIdAndUpdate`) answered. */
  datatype StoreReply = Updated | NotFound | StoreError(message: string)

  /** What the frame-extraction run reported: a spawn error, and the exit
      status (absent when the process was killed by a signal). */
  datatype ToolRun = ToolRun(spawnError: Option<string>, exitStatus: Option<nat>)

  /** Everything an attempt learns from the outside world. */
  datatype AttemptEnv = AttemptEnv(
    now: nat,                          // `Date.now()` when the name is chosen
    processingReply: StoreReply,
    inputExists: bool,                 // `fs.existsSync(filePath)`
    probe: Result<string, string>,     // duration command: its output, or what it threw
    extract: ToolRun,
    resize: Option<string>,            // what resizing (and the rename) threw, if anything
    thumbnailExists: bool,             // `fs.existsSync(fullThumbnailPath)` afterwards
    completedWriteError: Option<string>,  // what the `completed` write threw, if anything
    failedWriteError: Option<string>)     // what the catch block's `failed` write threw, if anything

  /** The frame-extraction call: input path, seek position and output path. */
  datatype Extraction = Extraction(input: string, seekMillis: nat, output: string)

  datatype Outcome = Returned | Raised(message: string)

  /** The writes an attempt issues, the extraction it requests (video only),
      and whether it returns or re-raises. */
  datatype Attempt = Attempt(writes: seq<StoreWrite>, extraction: Option<Extraction>, outcome: Outcome)

  function ProcessingWrite(jobId: string): StoreWrite {
    Update(jobId, Processing, None, None)
  }

  function CompletedWrite(jobId: string, name: string): StoreWrite {
    Update(jobId, Completed, Some(name), None)
  }

  function FailedWrite(jobId: string, message: string): StoreWrite {
    Update(jobId, Failed, None, Some(message))
  }

  predicate IsCompletedWrite(w: StoreWrite) {
    w.Update? && w.status == Completed
  }

  predicate IsFailedWrite(w: StoreWrite) {
    w.Update? && w.status == Failed
  }

  function NotFoundMessage(jobId: string): string {
    "Job " + jobId + " not found in database"
  }

  /** `${spawnResult.status}`: the number, or `null`. */
  function ExitStatusText(status: Option<nat>): string {
    match status
    case Some(n) => NatToString(n)
    case None => "null"
  }

  function ExitCodeMessage(status: Option<nat>): string {
    "FFmpeg command failed with exit code " + ExitStatusText(status)
  }

  /** Reference condition: every step of the video branch succeeded. */
  predicate VideoStepsSucceed(env: AttemptEnv) {
    && env.probe.Ok?
    && ParseDuration(env.probe.value).Ok?
    && env.extract.spawnError.None?
    && env.extract.exitStatus == Some(0)
    && env.resize.None?
  }

  /** Reference condition: every step of the media branch for this file
      succeeded. */
  predicate MediaSucceeded(filePath: string, env: AttemptEnv) {
    if KindOf(filePath) == Video then VideoStepsSucceed(env) else env.resize.None?
  }

  /** The video branch: the extraction it requests and the first error,
      before the `Video processing failed: ` wrapping. */
  datatype VideoRun = VideoRun(extraction: Option<Extraction>, error: Option<string>)

  function RunVideo(filePath: string, env: AttemptEnv): (v: VideoRun)
    ensures v.error.None? <==> VideoStepsSucceed(env)
    ensures v.extraction.Some? <==> env.probe.Ok? && ParseDuration(env.probe.value).Ok?
  {
    match env.probe
    case Err(m) => VideoRun(None, Some(m))
    case Ok(output) =>
      match ParseDuration(output)
      case Err(m) => VideoRun(None, Some(m))
      case Ok(clock) =>
        var x := Extraction(ToForwardSlashes(filePath), MidpointMillis(TotalCentis(clock)), ThumbnailPath(env.now));
        if env.extract.spawnError.Some? then
          VideoRun(Some(x), Some("FFmpeg spawn error: " + env.extract.spawnError.value))
        else if env.extract.exitStatus != Some(0) then
          VideoRun(Some(x), Some(ExitCodeMessage(env.extract.exitStatus)))
        else if env.resize.Some? then
          VideoRun(Some(x), env.resize)
        else VideoRun(Some(x), None)
  }

  /** The part of the `try` block before the `completed` write: the bare
      thumbnail name, or the message of the error it throws. */
  datatype Generation = Generation(extraction: Option<Extraction>, result: Result<string, string>)

  function Generate(task: TaskData, env: AttemptEnv): Generation {
    match env.processingReply
    case StoreError(m) => Generation(None, Err(m))
    case NotFound => Generation(None, Err(NotFoundMessage(task.jobId)))
    case Updated =>
      if !env.inputExists then Generation(None, Err("Input file not found: " + task.filePath))
      else if KindOf(task.filePath) == Video then
        var v := RunVideo(task.filePath, env);
        if v.error.Some? then Generation(v.extraction, Err("Video processing failed: " + v.error.value))
        else if !env.thumbnailExists then Generation(v.extraction, Err("Thumbnail file was not created"))
        else Generation(v.extraction, Ok(ThumbnailName(env.now)))
      else if env.resize.Some? then Generation(None, Err(env.resize.value))
      else if !env.thumbnailExists then Generation(None, Err("Thumbnail file was not created"))
      else Generation(None, Ok(ThumbnailName(env.now)))
  }

  /** The generation succeeds exactly when the job was found, the input
      exists, every media step succeeded and the thumbnail file exists; it
      then yields the bare thumbnail name. */
  lemma GenerateSucceedsIff(task: TaskData, env: AttemptEnv)
    ensures var g := Generate(task, env);
      g.result.Ok? <==> env.processingReply == Updated && env.inputExists
                        && MediaSucceeded(task.filePath, env) && env.thumbnailExists
    ensures var g := Generate(task, env);
      g.result.Ok? ==> g.result.value == ThumbnailName(env.now)
  {
    var g := Generate(task, env);
    match env.processingReply
    case StoreError(_) =>
    case NotFound =>
    case Updated =>
      if !env.inputExists {
      } else if KindOf(task.filePath) == Video {
        var v := RunVideo(task.filePath, env);
        assert MediaSucceeded(task.filePath, env) == VideoStepsSucceed(env);
        if v.error.Some? {
          assert g.result.Err?;
        } else if !env.thumbnailExists {
          assert g.result.Err?;
        } else {
          assert g.result == Ok(ThumbnailName(env.now));
        }
      } else {
        assert MediaSucceeded(task.filePath, env) == env.resize.None?;
        if env.resize.Some? {
          assert g.result.Err?;
        } else if !env.thumbnailExists {
          assert g.result.Err?;
        } else {
          assert g.result == Ok(ThumbnailName(env.now));
        }
      }
  }

  /** The statuses a worker writes. */
  predicate WorkerStatus(s: Status) {
    s == Processing || s == Completed || s == Failed
  }

  /** The writes that land during an attempt. A write whose call throws is
      taken not to land:
      - the `processing` write lands unless the store threw;
      - on success the `completed` write lands unless it threw;
      - on any error the catch block issues one `failed` write carrying the
        message. If that write throws too, its error is raised in place of
        the original one and no `failed` status lands. */
  function Conclude(jobId: string, processingLanded: bool, g: Generation,
                    completedWriteError: Option<string>, failedWriteError: Option<string>): (a: Attempt)
    ensures |a.writes| <= 2
    ensures processingLanded <==> |a.writes| > 0 && a.writes[0] == ProcessingWrite(jobId)
    ensures forall k :: 0 <= k < |a.writes| ==> a.writes[k].Target() == jobId
    ensures a.outcome.Raised? && failedWriteError.None?
            ==> |a.writes| > 0 && a.writes[|a.writes| - 1] == FailedWrite(jobId, a.outcome.message)
    ensures a.outcome.Raised? && failedWriteError.Some? ==> a.outcome.message == failedWriteError.value
    ensures forall k :: 0 <= k < |a.writes| && IsFailedWrite(a.writes[k])
              ==> a.outcome.Raised? && failedWriteError.None? && k == |a.writes| - 1
    ensures forall k :: 0 <= k < |a.writes| && IsCompletedWrite(a.writes[k]) ==> a.outcome.Returned?
    ensures forall k :: 1 <= k < |a.writes| ==> a.writes[k].NewStatus() != Processing
    ensures forall k :: 0 <= k < |a.writes| ==> WorkerStatus(a.writes[k].NewStatus())
  {
    var start := if processingLanded then [ProcessingWrite(jobId)] else [];
    var failure := if g.result.Ok? then completedWriteError.GetOr("") else g.result.error;
    if g.result.Ok? && completedWriteError.None? then
      Attempt(start + [CompletedWrite(jobId, g.result.value)], g.extraction, Returned)
    else if failedWriteError.None? then
      Attempt(start + [FailedWrite(jobId, failure)], g.extraction, Raised(failure))
    else
      Attempt(start, g.extraction, Raised(failedWriteError.value))
  }

  /** One attempt of the task callback. */
  function RunAttempt(task: TaskData, env: AttemptEnv): Attempt {
    Conclude(task.jobId, !env.processingReply.StoreError?, Generate(task, env),
             env.completedWriteError, env.failedWriteError)
  }

  /** The error an attempt raises: the catch block's own store error when
      its `failed` write threw, otherwise the `completed` write's error on a
      successful generation, otherwise the generation's error. */
  function RaisedMessage(g: Generation, completedWriteError: Option<string>, failedWriteError: Option<string>): string
    requires g.result.Err? || completedWriteError.Some?
  {
    if failedWriteError.Some? then failedWriteError.value
    else if g.result.Ok? then completedWriteError.value
    else g.result.error
  }

  /** How the landed writes follow the generation result: a `completed`
      write lands exactly when the generation succeeded and that write did
      not throw; it is then the last write and carries the generated name,
      and the attempt returns. Otherwise the attempt raises the message
      `RaisedMessage` picks. */
  lemma ConcludeFollowsResult(jobId: string, processingLanded: bool, g: Generation,
                              completedWriteError: Option<string>, failedWriteError: Option<string>)
    ensures var a := Conclude(jobId, processingLanded, g, completedWriteError, failedWriteError);
      (exists k :: 0 <= k < |a.writes| && IsCompletedWrite(a.writes[k]))
      <==> g.result.Ok? && completedWriteError.None?
    ensures var a := Conclude(jobId, processingLanded, g, completedWriteError, failedWriteError);
      forall k :: 0 <= k < |a.writes| && IsCompletedWrite(a.writes[k])
        ==> k == |a.writes| - 1 && a.writes[k] == CompletedWrite(jobId, g.result.value)
    ensures var a := Conclude(jobId, processingLanded, g, completedWriteError, failedWriteError);
      a.outcome.Returned? <==> g.result.Ok? && completedWriteError.None?
    ensures var a := Conclude(jobId, processingLanded, g, completedWriteError, failedWriteError);
      a.outcome.Returned? ==>
        a.writes == (if processingLanded then [ProcessingWrite(jobId)] else []) + [CompletedWrite(jobId, g.result.value)]
    ensures var a := Conclude(jobId, processingLanded, g, completedWriteError, failedWriteError);
      a.outcome.Raised? ==> a.outcome.message == RaisedMessage(g, completedWriteError, failedWriteError)
    ensures Conclude(jobId, processingLanded, g, completedWriteError, failedWriteError).extraction == g.extraction
  {
    var a := Conclude(jobId, processingLanded, g, completedWriteError, failedWriteError);
    if g.result.Ok? && completedWriteError.None? {
      assert IsCompletedWrite(a.writes[|a.writes| - 1]);
    }
  }

  /** A `completed` write lands only after the `processing` write, and
      exactly when the job was found, the input exists, the media steps
      succeeded, the thumbnail file was found and the write itself did not
      throw; it carries the bare thumbnail name. */
  lemma CompletedOnlyAfterChecks(task: TaskData, env: AttemptEnv)
    ensures var a := RunAttempt(task, env);
      (exists k :: 0 <= k < |a.writes| && IsCompletedWrite(a.writes[k]))
      <==> env.processingReply == Updated && env.inputExists
           && MediaSucceeded(task.filePath, env) && env.thumbnailExists && env.completedWriteError.None?
    ensures var a := RunAttempt(task, env);
      forall k :: 0 <= k < |a.writes| && IsCompletedWrite(a.writes[k])
        ==> k == 1 && a.writes[0] == ProcessingWrite(task.jobId)
            && a.writes[k] == CompletedWrite(task.jobId, ThumbnailName(env.now))
  {
    GenerateSucceedsIff(task, env);
    CompletedFollowsGeneration(task, env);
  }

  /** The same in terms of the generation: a `completed` write lands exactly
      when the generation succeeded and the write did not throw, and then
      second, after `processing`. */
  lemma CompletedFollowsGeneration(task: TaskData, env: AttemptEnv)
    ensures var a := RunAttempt(task, env);
      (exists k :: 0 <= k < |a.writes| && IsCompletedWrite(a.writes[k]))
      <==> Generate(task, env).result.Ok? && env.completedWriteError.None?
    ensures var a := RunAttempt(task, env);
      forall k :: 0 <= k < |a.writes| && IsCompletedWrite(a.writes[k])
        ==> k == 1 && a.writes[0] == ProcessingWrite(task.jobId)
            && a.writes[k] == CompletedWrite(task.jobId, Generate(task, env).result.value)
  {
    GenerateOkIsUpdated(task, env);
    ConcludeCompleted(task.jobId, !env.processingReply.StoreError?, Generate(task, env),
                      env.completedWriteError, env.failedWriteError);
  }

  /** When a successful generation implies the `processing` write landed,
      a `completed` write is the second of the attempt's writes. */
  lemma ConcludeCompleted(jobId: string, processingLanded: bool, g: Generation,
                          completedWriteError: Option<string>, failedWriteError: Option<string>)
    requires g.result.Ok? ==> processingLanded
    ensures var a := Conclude(jobId, processingLanded, g, completedWriteError, failedWriteError);
      (exists k :: 0 <= k < |a.writes| && IsCompletedWrite(a.writes[k]))
      <==> g.result.Ok? && completedWriteError.None?
    ensures var a := Conclude(jobId, processingLanded, g, completedWriteError, failedWriteError);
      forall k :: 0 <= k < |a.writes| && IsCompletedWrite(a.writes[k])
        ==> k == 1 && a.writes[0] == ProcessingWrite(jobId)
            && a.writes[k] == CompletedWrite(jobId, g.result.value)
  {
    ConcludeFollowsResult(jobId, processingLanded, g, completedWriteError, failedWriteError);
  }

  /** A generation succeeds only for a job the `processing` write found. */
  lemma GenerateOkIsUpdated(task: TaskData, env: AttemptEnv)
    ensures Generate(task, env).result.Ok? ==> env.processingReply == Updated
  {
    match env.processingReply
    case StoreError(_) =>
    case NotFound =>
    case Updated =>
  }

  /** An attempt returns exactly when the generation succeeded and the
      `completed` write did not throw; it then issued `processing` and
      `completed`, and nothing else. */
  lemma ReturnedShape(task: TaskData, env: AttemptEnv)
    ensures var a := RunAttempt(task, env);
      a.outcome.Returned?
      <==> env.processingReply == Updated && env.inputExists && MediaSucceeded(task.filePath, env)
           && env.thumbnailExists && env.completedWriteError.None?
    ensures var a := RunAttempt(task, env);
      a.outcome.Returned?
      ==> a.writes == [ProcessingWrite(task.jobId), CompletedWrite(task.jobId, ThumbnailName(env.now))]
  {
    GenerateSucceedsIff(task, env);
    ConcludeFollowsResult(task.jobId, !env.processingReply.StoreError?, Generate(task, env),
                          env.completedWriteError, env.failedWriteError);
  }

  /** A job missing from the store still gets the `processing` write (which
      matches nothing) and a `failed` write naming the id, unless that write
      throws, whose error is then raised instead. */
  lemma MissingRecordFails(task: TaskData, env: AttemptEnv)
    requires env.processingReply == NotFound
    ensures RunAttempt(task, env).writes
            == [ProcessingWrite(task.jobId)]
               + (if env.failedWriteError.None? then [FailedWrite(task.jobId, NotFoundMessage(task.jobId))] else [])
    ensures RunAttempt(task, env).outcome == Raised(env.failedWriteError.GetOr(NotFoundMessage(task.jobId)))
  {
  }

  /** A non-zero exit status of the extraction is reported with its code,
      wrapped as a video processing failure. */
  lemma ExitStatusFails(task: TaskData, env: AttemptEnv, output: string)
    requires env.processingReply == Updated && env.inputExists
    requires KindOf(task.filePath) == Video
    requires env.probe == Ok(output) && ParseDuration(output).Ok?
    requires env.extract.spawnError.None? && env.extract.exitStatus != Some(0)
    ensures Generate(task, env).result == Err("Video processing failed: " + ExitCodeMessage(env.extract.exitStatus))
    ensures RunAttempt(task, env).outcome
            == Raised(env.failedWriteError.GetOr("Video processing failed: " + ExitCodeMessage(env.extract.exitStatus)))
  {
    ConcludeFollowsResult(task.jobId, true, Generate(task, env), env.completedWriteError, env.failedWriteError);
  }

  /** An unparsable duration fails the attempt with the full tool output. */
  lemma UnparsableDurationFails(task: TaskData, env: AttemptEnv, output: string)
    requires env.processingReply == Updated && env.inputExists
    requires KindOf(task.filePath) == Video
    requires env.probe == Ok(output) && ParseDuration(output).Err?
    ensures Generate(task, env).result == Err("Video processing failed: " + NoDurationMessage(output))
    ensures RunAttempt(task, env).outcome
            == Raised(env.failedWriteError.GetOr("Video processing failed: " + NoDurationMessage(output)))
  {
    ConcludeFollowsResult(task.jobId, true, Generate(task, env), env.completedWriteError, env.failedWriteError);
  }

  /** The extraction the video branch requests is built from the input
      path, the midpoint of the probed duration and the thumbnail path. */
  lemma VideoExtraction(filePath: string, env: AttemptEnv)
    ensures var v := RunVideo(filePath, env);
      v.extraction.Some? ==>
        && env.probe.Ok? && ParseDuration(env.probe.value).Ok?
        && v.extraction.value
           == Extraction(ToForwardSlashes(filePath),
                         MidpointMillis(TotalCentis(ParseDuration(env.probe.value).value)),
                         ThumbnailPath(env.now))
  {
  }

  /** Only a video attempt past the store and file checks requests an
      extraction, and it is the one the video branch requests. */
  lemma GenerateExtraction(task: TaskData, env: AttemptEnv)
    ensures var g := Generate(task, env);
      g.extraction.Some? ==>
        (env.processingReply == Updated && env.inputExists && KindOf(task.filePath) == Video
         && g.extraction == RunVideo(task.filePath, env).extraction)
    ensures env.processingReply == Updated && env.inputExists && KindOf(task.filePath) == Video
            ==> Generate(task, env).extraction == RunVideo(task.filePath, env).extraction
  {
  }

  /** A video attempt whose probe succeeds asks for the frame at exactly
      half the duration, reading a backslash-free input path and writing the
      thumbnail path. Image attempts request no extraction. */
  lemma ExtractionAtMidpoint(task: TaskData, env: AttemptEnv)
    ensures var a := RunAttempt(task, env);
      a.extraction.Some? <==>
        env.processingReply == Updated && env.inputExists && KindOf(task.filePath) == Video
        && env.probe.Ok? && ParseDuration(env.probe.value).Ok?
    ensures var a := RunAttempt(task, env);
      a.extraction.Some? ==>
        var total := TotalCentis(ParseDuration(env.probe.value).value);
        && 2 * a.extraction.value.seekMillis == 10 * total
        && (total > 0 ==> 0 < a.extraction.value.seekMillis < 10 * total)
        && '\\' !in a.extraction.value.input
        && a.extraction.value.output == ThumbnailPath(env.now)
  {
    ConcludeFollowsResult(task.jobId, !env.processingReply.StoreError?, Generate(task, env),
                          env.completedWriteError, env.failedWriteError);
    GenerateExtraction(task, env);
    VideoExtraction(task.filePath, env);
    var a := RunAttempt(task, env);
    if a.extraction.Some? {
      var total := TotalCentis(ParseDuration(env.probe.value).value);
      var m := MidpointMillis(total);
      assert a.extraction.value.seekMillis == m;
      assert '\\' !in ToForwardSlashes(task.filePath);
    }
  }

  /** The record an attempt leaves when its catch block's `failed` write
      threw: `processing` if that write landed, untouched otherwise. */
  function UnfinishedRecord(prior: JobRecord, env: AttemptEnv): JobRecord {
    if env.processingReply.StoreError? then prior else prior.(status := Processing)
  }

  /** The store after an attempt on a present job:
      - `completed` with the bare thumbnail name when the attempt returned;
      - `failed` when it raised and the `failed` write landed;
      - `processing` or untouched when that write threw too.
      A raised attempt never changes the thumbnail. */
  lemma AttemptStoreEffect(store: Store, task: TaskData, env: AttemptEnv)
    requires task.jobId in store
    ensures var a := RunAttempt(task, env);
      var after := ApplyWrites(store, a.writes);
      && task.jobId in after
      && (a.outcome.Returned? ==> after[task.jobId].status == Completed
                                  && after[task.jobId].thumbnailFile == Some(ThumbnailName(env.now)))
      && (a.outcome.Raised? && env.failedWriteError.None? ==>
            after[task.jobId] == store[task.jobId].(status := Failed))
      && (a.outcome.Raised? && env.failedWriteError.Some? ==>
            after[task.jobId] == UnfinishedRecord(store[task.jobId], env))
  {
    var id := task.jobId;
    var a := RunAttempt(task, env);
    ReturnedShape(task, env);
    var start := if !env.processingReply.StoreError? then [ProcessingWrite(id)] else [];
    var s1 := ApplyWrites(store, start);
    assert id in s1 && s1[id] == UnfinishedRecord(store[id], env) by {
      if start != [] {
        assert ApplyWrites(store, start) == ApplyWrites(ApplyWrite(store, start[0]), []);
      }
    }
    if a.outcome.Returned? {
      ApplyWritesConcat(store, start, [CompletedWrite(id, ThumbnailName(env.now))]);
      assert ApplyWrites(s1, [CompletedWrite(id, ThumbnailName(env.now))])
          == ApplyWrites(ApplyWrite(s1, CompletedWrite(id, ThumbnailName(env.now))), []);
    } else if env.failedWriteError.None? {
      var f := FailedWrite(id, a.outcome.message);
      assert a.writes == start + [f];
      ApplyWritesConcat(store, start, [f]);
      assert ApplyWrites(s1, [f]) == ApplyWrites(ApplyWrite(s1, f), []);
    } else {
      assert a.writes == start;
    }
  }

  /** Deliveries of one task by the queue: attempts run until one returns or
      the configured number of attempts is used up. */
  function RunDeliveries(task: TaskData, envs: seq<AttemptEnv>): (ws: seq<StoreWrite>)
    ensures forall k :: 0 <= k < |ws| ==> ws[k].Target() == task.jobId
    ensures forall k :: 0 <= k < |ws| ==> ws[k].NewStatus() != Queued && ws[k].NewStatus() != Pending
    decreases |envs|
  {
    if |envs| == 0 then []
    else
      var a := RunAttempt(task, envs[0]);
      if a.outcome.Returned? then a.writes else a.writes + RunDeliveries(task, envs[1..])
  }

  /** The attempt each delivery makes, in order. */
  function Attempts(task: TaskData, envs: seq<AttemptEnv>): (atts: seq<Attempt>)
    ensures |atts| == |envs|
    ensures forall k :: 0 <= k < |envs| ==> atts[k] == RunAttempt(task, envs[k])
  {
    seq(|envs|, k requires 0 <= k < |envs| => RunAttempt(task, envs[k]))
  }

  /** Index of the first attempt that returned, if any. */
  function FirstReturned(atts: seq<Attempt>): (r: Option<nat>)
    ensures r.Some? ==> r.value < |atts| && atts[r.value].outcome.Returned?
    ensures forall k :: 0 <= k < |atts| && (r.None? || k < r.value) ==> atts[k].outcome.Raised?
    decreases |atts|
  {
    if |atts| == 0 then None
    else if atts[0].outcome.Returned? then Some(0)
    else
      var rest := FirstReturned(atts[1..]);
      assert forall k :: 1 <= k < |atts| ==> atts[k] == atts[1..][k - 1];
      if rest.None? then None else Some(rest.value + 1)
  }

  /** Index of the first delivery that returns, if any: every earlier
      delivery raised. */
  function FirstSuccess(task: TaskData, envs: seq<AttemptEnv>): (r: Option<nat>)
    ensures r.Some? ==> r.value < |envs| && RunAttempt(task, envs[r.value]).outcome.Returned?
    ensures forall k :: 0 <= k < |envs| && (r.None? || k < r.value) ==> RunAttempt(task, envs[k]).outcome.Raised?
  {
    FirstReturned(Attempts(task, envs))
  }

  /** The first success is the first delivery when it returns, and
      otherwise the first success among the later deliveries, shifted by
      one. */
  lemma FirstSuccessStep(task: TaskData, envs: seq<AttemptEnv>)
    requires |envs| > 0
    ensures RunAttempt(task, envs[0]).outcome.Returned? ==> FirstSuccess(task, envs) == Some(0)
    ensures RunAttempt(task, envs[0]).outcome.Raised? ==>
      FirstSuccess(task, envs)
      == (if FirstSuccess(task, envs[1..]).None? then None else Some(FirstSuccess(task, envs[1..]).value + 1))
  {
    AttemptsTail(task, envs);
  }

  /** The attempts of the later deliveries are the later attempts. */
  lemma AttemptsTail(task: TaskData, envs: seq<AttemptEnv>)
    requires |envs| > 0
    ensures Attempts(task, envs)[1..] == Attempts(task, envs[1..])
  {
    var a := Attempts(task, envs)[1..];
    var b := Attempts(task, envs[1..]);
    assert |a| == |b|;
    forall k | 0 <= k < |a|
      ensures a[k] == b[k]
    {
      assert envs[1..][k] == envs[k + 1];
    }
  }

  /** Whatever the deliveries met, a job that was not already `completed`
      ends `completed` exactly when some delivery returned, with the first
      such delivery's thumbnail name. When none returned, it ends `failed`
      if the last delivery's `failed` write landed; in any case only
      `processing` or `failed` can have replaced its status, and its
      thumbnail is untouched. The queue stops after
      `ThumbnailOptions.attempts` deliveries; this holds for any number. */
  lemma DeliveriesEndTerminal(store: Store, task: TaskData, envs: seq<AttemptEnv>)
    requires task.jobId in store
    ensures task.jobId in ApplyWrites(store, RunDeliveries(task, envs))
    ensures var after := ApplyWrites(store, RunDeliveries(task, envs));
      FirstSuccess(task, envs).Some? ==>
        && after[task.jobId].status == Completed
        && after[task.jobId].thumbnailFile == Some(ThumbnailName(envs[FirstSuccess(task, envs).value].now))
    ensures var after := ApplyWrites(store, RunDeliveries(task, envs));
      FirstSuccess(task, envs).None? ==>
        && after[task.jobId].thumbnailFile == store[task.jobId].thumbnailFile
        && (after[task.jobId].status == store[task.jobId].status
            || after[task.jobId].status == Processing || after[task.jobId].status == Failed)
    ensures var after := ApplyWrites(store, RunDeliveries(task, envs));
      FirstSuccess(task, envs).None? && |envs| > 0 && envs[|envs| - 1].failedWriteError.None? ==>
        after[task.jobId].status == Failed
    ensures var after := ApplyWrites(store, RunDeliveries(task, envs));
      store[task.jobId].status != Completed ==> (after[task.jobId].status == Completed <==> FirstSuccess(task, envs).Some?)
  {
    DeliveriesSucceed(store, task, envs);
    DeliveriesExhausted(store, task, envs);
  }

  /** Some delivery returned: the first such one completes the job. */
  lemma {:induction false} DeliveriesSucceed(store: Store, task: TaskData, envs: seq<AttemptEnv>)
    requires task.jobId in store
    ensures var after := ApplyWrites(store, RunDeliveries(task, envs));
      && task.jobId in after
      && (FirstSuccess(task, envs).Some? ==>
            && after[task.jobId].status == Completed
            && after[task.jobId].thumbnailFile == Some(ThumbnailName(envs[FirstSuccess(task, envs).value].now)))
    decreases |envs|
  {
    if |envs| > 0 {
      var a := RunAttempt(task, envs[0]);
      var s1 := ApplyWrites(store, a.writes);
      FirstSuccessStep(task, envs);
      AttemptStoreEffect(store, task, envs[0]);
      if a.outcome.Raised? {
        var rest := envs[1..];
        DeliveriesSucceed(s1, task, rest);
        ApplyWritesConcat(store, a.writes, RunDeliveries(task, rest));
        var r := FirstSuccess(task, rest);
        if r.Some? {
          assert envs[r.value + 1] == rest[r.value];
        }
      }
    }
  }

  /** No delivery returned: the thumbnail is untouched, only `processing`
      or `failed` can have replaced the status, and it is `failed` when the
      last delivery's `failed` write landed. */
  lemma {:induction false} DeliveriesExhausted(store: Store, task: TaskData, envs: seq<AttemptEnv>)
    requires task.jobId in store
    ensures var after := ApplyWrites(store, RunDeliveries(task, envs));
      && task.jobId in after
      && (FirstSuccess(task, envs).None? ==>
            && after[task.jobId].thumbnailFile == store[task.jobId].thumbnailFile
            && (after[task.jobId].status == store[task.jobId].status
                || after[task.jobId].status == Processing || after[task.jobId].status == Failed)
            && (|envs| > 0 && envs[|envs| - 1].failedWriteError.None? ==> after[task.jobId].status == Failed))
    decreases |envs|
  {
    if |envs| > 0 {
      var a := RunAttempt(task, envs[0]);
      var s1 := ApplyWrites(store, a.writes);
      FirstSuccessStep(task, envs);
      AttemptStoreEffect(store, task, envs[0]);
      if a.outcome.Raised? {
        var rest := envs[1..];
        DeliveriesExhausted(s1, task, rest);
        ApplyWritesConcat(store, a.writes, RunDeliveries(task, rest));
        if |rest| > 0 {
          assert envs[|envs| - 1] == rest[|rest| - 1];
        } else {
          assert RunDeliveries(task, rest) == [];
        }
      }
    }
  }
}
