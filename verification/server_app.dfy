/** The server's own logic: the relay that turns queue events into
    `jobUpdate` messages for the owner's room, its event wiring, and the
    download route with its path guard. The queue, the store and the file
    system are replaced by maps and sets of what they hold. */
module ServerApp {
  import opened Wrappers
  import opened Strings
  import opened JobModel
  import opened TaskQueue
  import opened Http
  import opened PosixPath
  import opened Media
  import opened Worker

  /** What the relay can read: the queue's entries by queue job id and the
      job store, and whether each of them answers. */
  datatype Backend = Backend(queue: map<string, QueueJob>, store: Store, queueUp: bool, storeUp: bool)

  /** What one run of the relay does. Only `Emitted` sends anything; the
      other three are log lines. */
  datatype RelayOutcome =
    | Emitted(room: string, record: JobRecord)
    | NoQueueData(queueJobId: string)
    | NoRecord(jobId: string)
    | Caught(queueJobId: string)

  /** The store id a queue entry names, when the entry exists and its
      payload carries a non-empty job id. */
  function NamedJob(queueJobId: string, queue: map<string, QueueJob>): Option<string> {
    if queueJobId in queue && queue[queueJobId].data.Some? && queue[queueJobId].data.value.jobId != ""
    then Some(queue[queueJobId].data.value.jobId)
    else None
  }

  /** `emitJobUpdate`: read the queue entry, then the record it names, and
      send that record to the room of its owner. A backend that throws is
      caught and logged, so the relay never fails. */
  function EmitJobUpdate(queueJobId: string, b: Backend): (o: RelayOutcome)
    ensures o.Emitted? <==> (b.queueUp && b.storeUp && NamedJob(queueJobId, b.queue).Some?
                             && NamedJob(queueJobId, b.queue).value in b.store)
    ensures o.Emitted? ==> (o.record == b.store[NamedJob(queueJobId, b.queue).value]
                            && o.room == o.record.userId)
    ensures o.Caught? <==> !b.queueUp || (NamedJob(queueJobId, b.queue).Some? && !b.storeUp)
    ensures o.NoQueueData? ==> NamedJob(queueJobId, b.queue).None?
  {
    if !b.queueUp then Caught(queueJobId)
    else if queueJobId in b.queue && b.queue[queueJobId].data.Some? && b.queue[queueJobId].data.value.jobId != "" then
      var jobId := b.queue[queueJobId].data.value.jobId;
      if !b.storeUp then Caught(queueJobId)
      else if jobId in b.store then
        var record := b.store[jobId];
        Emitted(record.userId, record)
      else NoRecord(jobId)
    else NoQueueData(queueJobId)
  }

  /** The queue events the server listens to. */
  datatype QueueEvent =
    | CompletedEvent(jobId: string)
    | FailedEvent(jobId: string, failedReason: string)
    | ActiveEvent(jobId: string)
    | ErrorEvent(message: string)

  /** The listener for one event: the three job events run the relay keyed
      by the queue job id; the error event only logs. */
  function OnQueueEvent(e: QueueEvent, b: Backend): (r: Option<RelayOutcome>)
    ensures r.None? <==> e.ErrorEvent?
    ensures r.Some? && r.value.Emitted? ==> NamedJob(e.jobId, b.queue).Some?
  {
    match e
    case CompletedEvent(id) => Some(EmitJobUpdate(id, b))
    case FailedEvent(id, _) => Some(EmitJobUpdate(id, b))
    case ActiveEvent(id) => Some(EmitJobUpdate(id, b))
    case ErrorEvent(_) => None
  }

  /** The three job events for the same queue job do the same thing; the
      failure reason plays no part. */
  lemma JobEventsAgree(id: string, reason: string, b: Backend)
    ensures OnQueueEvent(CompletedEvent(id), b) == OnQueueEvent(FailedEvent(id, reason), b)
    ensures OnQueueEvent(ActiveEvent(id), b) == OnQueueEvent(CompletedEvent(id), b)
    ensures OnQueueEvent(CompletedEvent(id), b).Some?
  {
  }

  /** The messages sent for a sequence of events, in order. */
  function RelayAll(events: seq<QueueEvent>, b: Backend): (sent: seq<RelayOutcome>)
    ensures forall k :: 0 <= k < |sent| ==> sent[k].Emitted?
    ensures |sent| <= |events|
    decreases |events|
  {
    if |events| == 0 then []
    else
      var first := match OnQueueEvent(events[0], b)
        case Some(Emitted(room, record)) => [Emitted(room, record)]
        case _ => [];
      first + RelayAll(events[1..], b)
  }

  /** Every message sent goes to the room of the owner of the record it
      carries, and that record is the one in the store. */
  lemma {:induction false} RelayOnlyToOwners(events: seq<QueueEvent>, b: Backend)
    ensures forall k :: 0 <= k < |RelayAll(events, b)| ==>
      RelayAll(events, b)[k].room == RelayAll(events, b)[k].record.userId
      && RelayAll(events, b)[k].record in b.store.Values
    decreases |events|
  {
    if |events| > 0 {
      RelayOnlyToOwners(events[1..], b);
      var sent := RelayAll(events, b);
      var rest := RelayAll(events[1..], b);
      var o := OnQueueEvent(events[0], b);
      if o.Some? && o.value.Emitted? {
        var id := NamedJob(events[0].jobId, b.queue).value;
        assert sent == [o.value] + rest;
        assert id in b.store && b.store[id] == o.value.record;
        assert b.store[id] in b.store.Values;
      } else {
        assert sent == rest;
      }
    }
  }

  /** After an attempt returns, the `completed` event for the queue entry of
      its task sends the `completed` record, with its thumbnail name, to the
      room of the record's owner. */
  lemma CompletedEventAfterAttempt(queueJobId: string, task: TaskData, env: AttemptEnv, store: Store,
                                   queue: map<string, QueueJob>)
    requires task.jobId != "" && task.jobId in store
    requires queueJobId in queue && queue[queueJobId].data == Some(task)
    requires RunAttempt(task, env).outcome.Returned?
    ensures var after := ApplyWrites(store, RunAttempt(task, env).writes);
      var o := OnQueueEvent(CompletedEvent(queueJobId), Backend(queue, after, true, true));
      && o.Some? && o.value.Emitted?
      && o.value.record.status == Completed
      && o.value.record.thumbnailFile == Some(ThumbnailName(env.now))
      && o.value.room == after[task.jobId].userId
  {
    var after := ApplyWrites(store, RunAttempt(task, env).writes);
    AttemptStoreEffect(store, task, env);
    assert NamedJob(queueJobId, queue) == Some(task.jobId);
    RelayReadsStore(queueJobId, queue, after, task.jobId);
  }

  /** With both backends up, the relay sends the record the queue entry
      names, as the store holds it now. */
  lemma RelayReadsStore(queueJobId: string, queue: map<string, QueueJob>, store: Store, jobId: string)
    requires NamedJob(queueJobId, queue) == Some(jobId) && jobId in store
    ensures OnQueueEvent(CompletedEvent(queueJobId), Backend(queue, store, true, true))
            == Some(Emitted(store[jobId].userId, store[jobId]))
  {
  }

  /** Where uploads live: `path.join(appDir, "uploads")`. */
  function UploadsBase(appDir: string): string
    requires Absolute(appDir)
  {
    JoinAbsolute(appDir, UploadsSegment)
  }

  const UploadsSegment: string := "uploads"

  /** The path a download reads: `path.join(appDir, "uploads", filename)`. */
  function DownloadPath(appDir: string, filename: string): string
    requires Absolute(appDir)
  {
    JoinAbsolute(appDir + "/" + UploadsSegment, filename)
  }

  /** The guard as written: the file exists and its path starts with the
      uploads directory's path, with no separator after it. */
  predicate DownloadGuardAsWritten(appDir: string, filename: string, existing: set<string>)
    requires Absolute(appDir)
  {
    DownloadPath(appDir, filename) in existing && StartsWith(DownloadPath(appDir, filename), UploadsBase(appDir))
  }

  /** A sibling directory whose name extends `uploads` passes the guard as
      written. The route parameter `..%2Fuploads2%2Fsecret.txt` arrives
      decoded as `../uploads2/secret.txt`; it resolves to
      `<appDir>/uploads2/secret.txt`, outside the uploads directory, yet its
      text starts with `<appDir>/uploads`. */
  lemma GuardAsWrittenAdmitsSibling(appDir: string, suffix: string, file: string)
    requires Absolute(appDir) && suffix != "" && Proper(UploadsSegment + suffix) && Proper(file)
    ensures var filename := "../" + UploadsSegment + suffix + "/" + file;
      && DownloadPath(appDir, filename) == UploadsBase(appDir) + suffix + "/" + file
      && DownloadGuardAsWritten(appDir, filename, {DownloadPath(appDir, filename)})
      && !Inside(Segments(appDir + "/" + UploadsSegment + "/" + filename), Segments(appDir + "/" + UploadsSegment))
  {
    var sibling := UploadsSegment + suffix;
    var filename := "../" + sibling + "/" + file;
    assert filename == "../" + UploadsSegment + suffix + "/" + file;
    var d := Segments(appDir);
    var path := DownloadPath(appDir, filename);
    BaseSegments(appDir);
    SiblingSegments(appDir, sibling, file);
    assert UploadsBase(appDir) == Slashed(d) + "/" + UploadsSegment by {
      SlashedSnoc(d, UploadsSegment);
    }
    assert path == Slashed(d) + "/" + sibling + "/" + file by {
      SiblingRendered(appDir, sibling, file);
    }
    assert path == UploadsBase(appDir) + suffix + "/" + file;
    assert StartsWith(path, UploadsBase(appDir));
    assert sibling != UploadsSegment by {
      assert |sibling| > |UploadsSegment|;
    }
    assert (d + [sibling, file])[..|d| + 1][|d|] == sibling;
    assert (d + [UploadsSegment])[|d|] == UploadsSegment;
  }

  /** `appDir/uploads` resolves to the app directory's segments and `uploads`. */
  lemma BaseSegments(appDir: string)
    requires Absolute(appDir)
    ensures Segments(appDir + "/" + UploadsSegment) == Segments(appDir) + [UploadsSegment]
  {
    SegmentsSnoc(appDir, UploadsSegment);
  }

  /** A proper segment appended to a path is appended to its segments. */
  lemma SegmentsSnoc(dir: string, seg: string)
    requires Proper(seg)
    ensures Segments(dir + "/" + seg) == Segments(dir) + [seg]
  {
    SplitLastField(dir, '/', seg);
    ResolveSnoc(Split(dir, '/'), seg);
  }

  /** `appDir/uploads/../sibling/file` resolves to the app directory's
      segments, then `sibling` and `file`. */
  lemma SiblingSegments(appDir: string, sibling: string, file: string)
    requires Absolute(appDir) && Proper(sibling) && Proper(file)
    ensures Segments(appDir + "/" + UploadsSegment + "/" + ("../" + sibling + "/" + file))
            == Segments(appDir) + [sibling, file]
  {
    UpAndOver(appDir, UploadsSegment, sibling, file);
  }

  /** `dir/seg/../sibling/file` resolves to the segments of `dir`, then
      `sibling` and `file`: the `..` cancels `seg`. */
  lemma UpAndOver(dir: string, seg: string, sibling: string, file: string)
    requires Proper(seg) && Proper(sibling) && Proper(file)
    ensures Segments(dir + "/" + seg + "/" + ("../" + sibling + "/" + file))
            == Segments(dir) + [sibling, file]
  {
    var p1 := dir + "/" + seg;
    var p2 := p1 + "/" + "..";
    var p3 := p2 + "/" + sibling;
    var p4 := p3 + "/" + file;
    assert dir + "/" + seg + "/" + ("../" + sibling + "/" + file) == p4;
    SegmentsSnoc(dir, seg);
    SplitLastField(p1, '/', "..");
    ResolveSnoc(Split(p1, '/'), "..");
    assert Segments(p2) == Segments(dir);
    SegmentsSnoc(p2, sibling);
    SegmentsSnoc(p3, file);
  }

  /** The text `path.join` gives for the sibling path. */
  lemma SiblingRendered(appDir: string, sibling: string, file: string)
    requires Absolute(appDir) && Proper(sibling) && Proper(file)
    ensures DownloadPath(appDir, "../" + sibling + "/" + file)
            == Slashed(Segments(appDir)) + "/" + sibling + "/" + file
  {
    var d := Segments(appDir);
    var joined := appDir + "/" + UploadsSegment + "/" + ("../" + sibling + "/" + file);
    SiblingSegments(appDir, sibling, file);
    SlashedSnoc(d, sibling);
    SlashedSnoc(d + [sibling], file);
    assert d + [sibling] + [file] == d + [sibling, file];
    assert joined[|joined| - 1] == file[|file| - 1];
    assert file[|file| - 1] in file;
  }

  /** Resolving one more segment is one more step. */
  lemma ResolveSnoc(segs: seq<string>, seg: string)
    requires forall k :: 0 <= k < |segs| ==> '/' !in segs[k]
    requires '/' !in seg
    ensures Resolve(segs + [seg]) == Step(Resolve(segs), seg)
  {
    assert (segs + [seg])[..|segs|] == segs;
  }

  /** The segments of `b` begin those of `f`: the path `f` is the directory
      `b` or lies below it. */
  predicate Inside(f: seq<string>, b: seq<string>) {
    |b| <= |f| && f[..|b|] == b
  }

  /** The corrected guard: the path must start with the uploads directory's
      path followed by a separator. */
  predicate DownloadGuard(appDir: string, filename: string, existing: set<string>)
    requires Absolute(appDir)
  {
    DownloadPath(appDir, filename) in existing && StartsWith(DownloadPath(appDir, filename), UploadsBase(appDir) + "/")
  }

  /** Whatever the file name, a path the corrected guard lets through
      resolves to the uploads directory or below it. */
  lemma GuardKeepsInside(appDir: string, filename: string, existing: set<string>)
    requires Absolute(appDir)
    requires DownloadGuard(appDir, filename, existing)
    ensures var joined := if filename == "" then appDir + "/" + UploadsSegment
                          else appDir + "/" + UploadsSegment + "/" + filename;
      Inside(Segments(joined), Segments(appDir + "/" + UploadsSegment))
  {
    var joined := if filename == "" then appDir + "/" + UploadsSegment
                  else appDir + "/" + UploadsSegment + "/" + filename;
    var f := Segments(joined);
    var b := Segments(appDir + "/" + UploadsSegment);
    JoinProperLast(appDir, UploadsSegment);
    var base := appDir + "/" + UploadsSegment;
    assert base[|base| - 1] == 's';
    assert UploadsBase(appDir) == Slashed(b);
    assert |Slashed(b)| >= 1;
    var tail := if joined[|joined| - 1] == '/' then "/" else "";
    assert DownloadPath(appDir, filename) == Render(f, joined[|joined| - 1] == '/');
    if |f| > 0 {
      assert Render(f, joined[|joined| - 1] == '/') == Slashed(f) + tail;
      assert forall k :: 0 <= k < |f| ==> Proper(f[k]);
      assert forall k :: 0 <= k < |b| ==> Proper(b[k]);
      RenderedPrefix(f, b, tail);
    }
  }

  /** A download of a plain file name (no separator, not `.` or `..`) is
      read from `uploads/<name>`, and the corrected guard admits it whenever
      that file exists. */
  lemma GuardAdmitsPlainNames(appDir: string, name: string, existing: set<string>)
    requires Absolute(appDir) && Proper(name)
    ensures DownloadPath(appDir, name) == UploadsBase(appDir) + "/" + name
    ensures DownloadPath(appDir, name) in existing ==> DownloadGuard(appDir, name, existing)
  {
    var base := appDir + "/" + UploadsSegment;
    var b := Segments(base);
    JoinProperLast(appDir, UploadsSegment);
    SplitLastField(base, '/', name);
    var raw := Split(base, '/') + [name];
    assert raw[..|raw| - 1] == Split(base, '/');
    assert Segments(base + "/" + name) == b + [name];
    SlashedSnoc(b, name);
    assert base[|base| - 1] == 's';
    var joined := base + "/" + name;
    assert joined[|joined| - 1] == name[|name| - 1];
    assert name[|name| - 1] in name;
  }

  lemma {:induction false} SlashedSnoc(segs: seq<string>, name: string)
    ensures Slashed(segs + [name]) == Slashed(segs) + "/" + name
    decreases |segs|
  {
    if |segs| == 0 {
      assert Slashed([name]) == "/" + name + Slashed([]);
    } else {
      assert (segs + [name])[1..] == segs[1..] + [name];
      SlashedSnoc(segs[1..], name);
    }
  }

  const FileNotFound: string := "File not found."
  const DownloadFailed: string := "Could not download the file."

  /** The reply once the token is checked and the guard has answered: 401
      without an accepted token, 404 `File not found.` when the guard
      refuses, 500 when sending fails, and the file otherwise, under the name
      it was asked for. */
  function Respond(header: Option<string>, accepted: map<string, string>, path: string,
                   filename: string, admitted: bool, sendFails: bool): Reply
  {
    match Authenticate(header, accepted)
    case Err(reply) => reply
    case Ok(_) =>
      if !admitted then ErrorReply(404, FileNotFound)
      else if sendFails then ErrorReply(500, DownloadFailed)
      else Reply(200, FileBody(path, filename))
  }

  /** `GET /api/download/:filename` as written: the file is served exactly
      when the token is accepted, the guard as written admits the path and
      sending succeeds. */
  function Download(header: Option<string>, accepted: map<string, string>, appDir: string,
                    filename: string, existing: set<string>, sendFails: bool): (r: Reply)
    requires Absolute(appDir)
    ensures Authenticate(header, accepted).Err? ==> r == Authenticate(header, accepted).error
    ensures r.status == 200
            <==> Authenticate(header, accepted).Ok? && DownloadGuardAsWritten(appDir, filename, existing) && !sendFails
    ensures r.status == 200 ==> r.body == FileBody(DownloadPath(appDir, filename), filename)
    ensures Authenticate(header, accepted).Ok? && !DownloadGuardAsWritten(appDir, filename, existing)
            ==> r == ErrorReply(404, FileNotFound)
    ensures Authenticate(header, accepted).Ok? && DownloadGuardAsWritten(appDir, filename, existing) && sendFails
            ==> r == ErrorReply(500, DownloadFailed)
  {
    Respond(header, accepted, DownloadPath(appDir, filename), filename,
            DownloadGuardAsWritten(appDir, filename, existing), sendFails)
  }

  /** The same route with the corrected guard. */
  function DownloadCorrected(header: Option<string>, accepted: map<string, string>, appDir: string,
                             filename: string, existing: set<string>, sendFails: bool): (r: Reply)
    requires Absolute(appDir)
    ensures Authenticate(header, accepted).Err? ==> r == Authenticate(header, accepted).error
    ensures r.status == 200
            <==> Authenticate(header, accepted).Ok? && DownloadGuard(appDir, filename, existing) && !sendFails
    ensures r.status == 200 ==> r.body == FileBody(DownloadPath(appDir, filename), filename)
    ensures Authenticate(header, accepted).Ok? && !DownloadGuard(appDir, filename, existing)
            ==> r == ErrorReply(404, FileNotFound)
    ensures Authenticate(header, accepted).Ok? && DownloadGuard(appDir, filename, existing) && sendFails
            ==> r == ErrorReply(500, DownloadFailed)
  {
    Respond(header, accepted, DownloadPath(appDir, filename), filename,
            DownloadGuard(appDir, filename, existing), sendFails)
  }

  /** The corrected guard only narrows the one as written. */
  lemma GuardNarrows(appDir: string, filename: string, existing: set<string>)
    requires Absolute(appDir)
    ensures DownloadGuard(appDir, filename, existing) ==> DownloadGuardAsWritten(appDir, filename, existing)
  {
    var p := DownloadPath(appDir, filename);
    var b := UploadsBase(appDir);
    if DownloadGuard(appDir, filename, existing) {
      assert p[..|b|] == (b + "/")[..|b|] == b;
    }
  }

  /** The two routes differ only on a path the guard as written admits and
      the corrected one refuses; whatever the corrected route serves, the
      route as written serves too. */
  lemma CorrectionOnlyNarrows(header: Option<string>, accepted: map<string, string>, appDir: string,
                              filename: string, existing: set<string>, sendFails: bool)
    requires Absolute(appDir)
    ensures DownloadCorrected(header, accepted, appDir, filename, existing, sendFails)
            != Download(header, accepted, appDir, filename, existing, sendFails)
            ==> DownloadGuardAsWritten(appDir, filename, existing) && !DownloadGuard(appDir, filename, existing)
    ensures DownloadCorrected(header, accepted, appDir, filename, existing, sendFails).status == 200
            ==> Download(header, accepted, appDir, filename, existing, sendFails)
                == DownloadCorrected(header, accepted, appDir, filename, existing, sendFails)
  {
    GuardNarrows(appDir, filename, existing);
  }

  /** A stored plain name, such as the thumbnail name the worker records, is
      served from `uploads/<name>` by both routes whenever the token is
      accepted, the file exists and sending succeeds. */
  lemma DownloadServesPlainNames(header: Option<string>, accepted: map<string, string>, appDir: string,
                                 name: string, existing: set<string>)
    requires Absolute(appDir) && Proper(name)
    requires Authenticate(header, accepted).Ok?
    requires UploadsBase(appDir) + "/" + name in existing
    ensures Download(header, accepted, appDir, name, existing, false)
            == Reply(200, FileBody(UploadsBase(appDir) + "/" + name, name))
    ensures DownloadCorrected(header, accepted, appDir, name, existing, false)
            == Reply(200, FileBody(UploadsBase(appDir) + "/" + name, name))
  {
    GuardAdmitsPlainNames(appDir, name, existing);
    GuardNarrows(appDir, name, existing);
  }

  /** The route as written serves a file from a sibling directory whose name
      extends `uploads`; the corrected route refuses the same request. */
  lemma DownloadAsWrittenServesSibling(header: Option<string>, accepted: map<string, string>,
                                       appDir: string, suffix: string, file: string)
    requires Absolute(appDir) && suffix != "" && Proper(UploadsSegment + suffix) && Proper(file)
    requires Authenticate(header, accepted).Ok?
    ensures var filename := "../" + UploadsSegment + suffix + "/" + file;
      var existing := {UploadsBase(appDir) + suffix + "/" + file};
      && Download(header, accepted, appDir, filename, existing, false)
         == Reply(200, FileBody(UploadsBase(appDir) + suffix + "/" + file, filename))
      && DownloadCorrected(header, accepted, appDir, filename, existing, false)
         == ErrorReply(404, FileNotFound)
  {
    var filename := "../" + UploadsSegment + suffix + "/" + file;
    var existing := {UploadsBase(appDir) + suffix + "/" + file};
    GuardAsWrittenAdmitsSibling(appDir, suffix, file);
    if DownloadGuard(appDir, filename, existing) {
      GuardKeepsInside(appDir, filename, existing);
      assert false;
    }
  }

  /** Whatever the file name, the corrected route serves only files at or
      below the uploads directory. */
  lemma DownloadCorrectedStaysInside(header: Option<string>, accepted: map<string, string>, appDir: string,
                                     filename: string, existing: set<string>, sendFails: bool)
    requires Absolute(appDir)
    ensures DownloadCorrected(header, accepted, appDir, filename, existing, sendFails).status == 200 ==>
      var joined := if filename == "" then appDir + "/" + UploadsSegment
                    else appDir + "/" + UploadsSegment + "/" + filename;
      Inside(Segments(joined), Segments(appDir + "/" + UploadsSegment))
  {
    if DownloadCorrected(header, accepted, appDir, filename, existing, sendFails).status == 200 {
      GuardKeepsInside(appDir, filename, existing);
    }
  }
}
