/** The client's job list: the list state a `jobUpdate` event and the initial
    fetch change, the thumbnail name it displays, and the download request
    its button sends. */
module JobList {
  import opened Wrappers
  import opened Strings
  import opened JobModel
  import opened Media
  import opened PosixPath
  import opened ServerApp

  /** The client's `Job` shape: the record as the server sends it. */
  datatype ClientJob = ClientJob(
    id: string,
    userId: string,
    originalFile: string,
    originalName: Option<string>,
    thumbnailFile: Option<string>,
    filename: Option<string>,
    status: Status,
    error: Option<string>,
    createdAt: string,
    updatedAt: string)

  /** `findIndex` on `_id`: the first position holding the id, or -1. */
  function FindIndex(jobs: seq<ClientJob>, id: string): (r: int)
    ensures -1 <= r < |jobs|
    ensures r >= 0 ==> jobs[r].id == id && forall k :: 0 <= k < r ==> jobs[k].id != id
    ensures r == -1 <==> forall k :: 0 <= k < |jobs| ==> jobs[k].id != id
    decreases |jobs|
  {
    if |jobs| == 0 then -1
    else if jobs[0].id == id then 0
    else
      var i := FindIndex(jobs[1..], id);
      if i < 0 then -1 else i + 1
  }

  /** The job the list shows for an id: the first one holding it. */
  function Lookup(jobs: seq<ClientJob>, id: string): Option<ClientJob> {
    var i := FindIndex(jobs, id);
    if i < 0 then None else Some(jobs[i])
  }

  /** The `jobUpdate` reducer: a job already listed is replaced where its
      first copy stands, and a new one is put in front. */
  function ApplyJobUpdate(prev: seq<ClientJob>, job: ClientJob): (next: seq<ClientJob>)
    ensures FindIndex(prev, job.id) >= 0 ==>
      |next| == |prev| && next[FindIndex(prev, job.id)] == job
      && forall k :: 0 <= k < |prev| && k != FindIndex(prev, job.id) ==> next[k] == prev[k]
    ensures FindIndex(prev, job.id) < 0 ==> |next| == |prev| + 1 && next[0] == job && next[1..] == prev
  {
    var i := FindIndex(prev, job.id);
    if i >= 0 then prev[i := job] else [job] + prev
  }

  /** Seen through ids, an update is a map assignment: the updated id now
      shows the new job and every other id shows what it showed before. */
  lemma UpdateIsAssignment(prev: seq<ClientJob>, job: ClientJob)
    ensures Lookup(ApplyJobUpdate(prev, job), job.id) == Some(job)
    ensures forall id :: id != job.id ==> Lookup(ApplyJobUpdate(prev, job), id) == Lookup(prev, id)
  {
    if FindIndex(prev, job.id) >= 0 {
      ReplacedLookup(prev, job);
    } else {
      PrependedLookup(prev, job);
    }
  }

  /** An update of a listed job, seen by id. */
  lemma ReplacedLookup(prev: seq<ClientJob>, job: ClientJob)
    requires FindIndex(prev, job.id) >= 0
    ensures Lookup(ApplyJobUpdate(prev, job), job.id) == Some(job)
    ensures forall id :: id != job.id ==> Lookup(ApplyJobUpdate(prev, job), id) == Lookup(prev, id)
  {
    var next := ApplyJobUpdate(prev, job);
    var i := FindIndex(prev, job.id);
    assert FindIndex(next, job.id) == i by {
      assert forall k :: 0 <= k < i ==> next[k].id != job.id;
    }
    forall id | id != job.id
      ensures Lookup(next, id) == Lookup(prev, id)
    {
      var j := FindIndex(prev, id);
      if j >= 0 {
        assert j != i;
        assert forall k :: 0 <= k < j ==> next[k].id != id;
        assert FindIndex(next, id) == j;
      } else {
        assert forall k :: 0 <= k < |next| ==> next[k].id != id;
      }
    }
  }

  /** An update of a job not yet listed, seen by id. */
  lemma PrependedLookup(prev: seq<ClientJob>, job: ClientJob)
    requires FindIndex(prev, job.id) < 0
    ensures Lookup(ApplyJobUpdate(prev, job), job.id) == Some(job)
    ensures forall id :: id != job.id ==> Lookup(ApplyJobUpdate(prev, job), id) == Lookup(prev, id)
  {
    var next := ApplyJobUpdate(prev, job);
    forall id | id != job.id
      ensures Lookup(next, id) == Lookup(prev, id)
    {
      var j := FindIndex(prev, id);
      if j >= 0 {
        assert forall k :: 0 <= k < j + 1 ==> next[k].id != id;
        assert FindIndex(next, id) == j + 1;
      } else {
        assert forall k :: 0 <= k < |next| ==> next[k].id != id;
      }
    }
  }

  /** Applying the same update twice leaves the list as applying it once. */
  lemma UpdateIdempotent(prev: seq<ClientJob>, job: ClientJob)
    ensures ApplyJobUpdate(ApplyJobUpdate(prev, job), job) == ApplyJobUpdate(prev, job)
  {
    var next := ApplyJobUpdate(prev, job);
    var i := FindIndex(prev, job.id);
    if i >= 0 {
      assert forall k :: 0 <= k < i ==> next[k].id != job.id;
      assert FindIndex(next, job.id) == i;
      assert next[i := job] == next;
    } else {
      assert FindIndex(next, job.id) == 0;
      assert next[0 := job] == next;
    }
  }

  /** No id is listed twice. */
  predicate UniqueIds(jobs: seq<ClientJob>) {
    forall i, j :: 0 <= i < j < |jobs| ==> jobs[i].id != jobs[j].id
  }

  /** The ids listed. */
  function Ids(jobs: seq<ClientJob>): set<string> {
    set k | 0 <= k < |jobs| :: jobs[k].id
  }

  /** An update keeps ids unique and adds exactly the updated id. */
  lemma UpdateKeepsUnique(prev: seq<ClientJob>, job: ClientJob)
    requires UniqueIds(prev)
    ensures UniqueIds(ApplyJobUpdate(prev, job))
    ensures Ids(ApplyJobUpdate(prev, job)) == Ids(prev) + {job.id}
  {
    var next := ApplyJobUpdate(prev, job);
    var i := FindIndex(prev, job.id);
    if i >= 0 {
      forall a, b | 0 <= a < b < |next|
        ensures next[a].id != next[b].id
      {
        if a == i {
          assert next[b] == prev[b];
        } else if b == i {
          assert next[a] == prev[a];
        } else {
          assert next[a] == prev[a] && next[b] == prev[b];
        }
      }
      forall x | x in Ids(next)
        ensures x in Ids(prev) + {job.id}
      {
        var k :| 0 <= k < |next| && next[k].id == x;
        if k != i {
          assert prev[k].id == x;
        }
      }
      forall x | x in Ids(prev) + {job.id}
        ensures x in Ids(next)
      {
        if x == job.id {
          assert next[i].id == x;
        } else {
          var k :| 0 <= k < |prev| && prev[k].id == x;
          assert next[k].id == x;
        }
      }
    } else {
      forall a, b | 0 <= a < b < |next|
        ensures next[a].id != next[b].id
      {
        if a == 0 {
          assert next[b] == prev[b - 1];
        } else {
          assert next[a] == prev[a - 1] && next[b] == prev[b - 1];
        }
      }
      forall x | x in Ids(next)
        ensures x in Ids(prev) + {job.id}
      {
        var k :| 0 <= k < |next| && next[k].id == x;
        if k > 0 {
          assert prev[k - 1].id == x;
        }
      }
      forall x | x in Ids(prev) + {job.id}
        ensures x in Ids(next)
      {
        if x == job.id {
          assert next[0].id == x;
        } else {
          var k :| 0 <= k < |prev| && prev[k].id == x;
          assert next[k + 1].id == x;
        }
      }
    }
  }

  /** The list component's state. */
  datatype ListState = ListState(jobs: seq<ClientJob>, loading: bool, error: Option<string>)

  /** Before anything arrives: no jobs, loading. */
  const Initial: ListState := ListState([], true, None)

  const FetchFailed: string := "Failed to fetch jobs"
  const ConnectFailed: string := "Failed to connect to server"

  /** What reaches the component: a socket `jobUpdate`, a socket
      `connect_error`, or the answer to the initial `GET /api/upload`. */
  datatype ListEvent =
    | JobUpdate(job: ClientJob)
    | ConnectError
    | Fetched(response: Result<seq<ClientJob>, string>)

  /** One event applied to the state. */
  function Step(s: ListState, e: ListEvent): (t: ListState)
    ensures e.Fetched? ==> !t.loading
    ensures e.Fetched? && e.response.Ok? ==> t.jobs == e.response.value && t.error == None
    ensures e.Fetched? && e.response.Err? ==> t.jobs == s.jobs && t.error == Some(FetchFailed)
    ensures e.JobUpdate? ==> t == s.(jobs := ApplyJobUpdate(s.jobs, e.job))
    ensures e.ConnectError? ==> t == s.(error := Some(ConnectFailed))
  {
    match e
    case JobUpdate(job) => s.(jobs := ApplyJobUpdate(s.jobs, job))
    case ConnectError => s.(error := Some(ConnectFailed))
    case Fetched(Ok(data)) => ListState(data, false, None)
    case Fetched(Err(_)) => ListState(s.jobs, false, Some(FetchFailed))
  }

  /** Events applied in arrival order. */
  function Run(s: ListState, events: seq<ListEvent>): ListState
    decreases |events|
  {
    if |events| == 0 then s else Run(Step(s, events[0]), events[1..])
  }

  lemma {:induction false} RunSnoc(s: ListState, events: seq<ListEvent>, e: ListEvent)
    ensures Run(s, events + [e]) == Step(Run(s, events), e)
    decreases |events|
  {
    if |events| > 0 {
      assert (events + [e])[0] == events[0];
      assert (events + [e])[1..] == events[1..] + [e];
      RunSnoc(Step(s, events[0]), events[1..], e);
    }
  }

  /** A successful fetch replaces the list wholesale: whatever updates came
      before it, the list is then exactly the server's answer. */
  lemma FetchReplacesList(s: ListState, before: seq<ListEvent>, data: seq<ClientJob>)
    ensures Run(s, before + [Fetched(Ok(data))]) == ListState(data, false, None)
  {
    RunSnoc(s, before, Fetched(Ok(data)));
  }

  /** Ids stay unique as long as every fetched list has unique ids. */
  lemma {:induction false} RunKeepsUnique(s: ListState, events: seq<ListEvent>)
    requires UniqueIds(s.jobs)
    requires forall k :: 0 <= k < |events| && events[k].Fetched? && events[k].response.Ok?
               ==> UniqueIds(events[k].response.value)
    ensures UniqueIds(Run(s, events).jobs)
    decreases |events|
  {
    if |events| > 0 {
      var e := events[0];
      if e.JobUpdate? {
        UpdateKeepsUnique(s.jobs, e.job);
      }
      assert UniqueIds(Step(s, e).jobs);
      assert forall k :: 1 <= k < |events| ==> events[1..][k - 1] == events[k];
      RunKeepsUnique(Step(s, e), events[1..]);
    }
  }

  /** `getFilenameFromPath`: nothing for a missing or empty path, otherwise
      the last `/`-separated part once `\` is mapped to `/`. */
  function FilenameFromPath(fullPath: Option<string>): (r: Option<string>)
    ensures r.None? <==> fullPath.None? || fullPath.value == ""
    ensures r.Some? ==> '/' !in r.value && '\\' !in r.value
    ensures r.Some? ==> r.value == LastSegment(ToForwardSlashes(fullPath.value), '/')
  {
    if fullPath.None? || fullPath.value == "" then None
    else
      var parts := Split(ToForwardSlashes(fullPath.value), '/');
      LastOfSplit(ToForwardSlashes(fullPath.value), '/');
      NoBackslashInSegment(ToForwardSlashes(fullPath.value));
      Some(parts[|parts| - 1])
  }

  lemma NoBackslashInSegment(s: string)
    requires '\\' !in s
    ensures '\\' !in LastSegment(s, '/')
  {
    var r := LastSegment(s, '/');
    assert forall i :: 0 <= i < |r| ==> r[i] == s[|s| - |r| + i];
  }

  /** A name without separators is shown as it is. */
  lemma PlainNameShownAsIs(name: string)
    requires name != "" && '/' !in name && '\\' !in name
    ensures FilenameFromPath(Some(name)) == Some(name)
  {
    ToForwardSlashesIdempotent(name);
    LastSegmentOfPlainName(name);
  }

  /** A displayed name is its own display: the function is idempotent on
      its non-empty results. */
  lemma FilenameIdempotent(fullPath: Option<string>)
    ensures var r := FilenameFromPath(fullPath);
      r.Some? && r.value != "" ==> FilenameFromPath(r) == r
  {
    var r := FilenameFromPath(fullPath);
    if r.Some? && r.value != "" {
      PlainNameShownAsIs(r.value);
    }
  }

  /** Whatever the directory and whichever separator precedes it, a plain
      name at the end of a path is what is shown. */
  lemma NameAfterDirectoryShown(dir: string, sep: char, name: string)
    requires sep == '/' || sep == '\\'
    requires name != "" && '/' !in name && '\\' !in name
    ensures FilenameFromPath(Some(dir + [sep] + name)) == Some(name)
  {
    var p := dir + [sep] + name;
    var q := ToForwardSlashes(p);
    assert q == ToForwardSlashes(dir) + "/" + name by {
      assert forall i :: 0 <= i < |name| ==> p[|dir| + 1 + i] == name[i];
      assert forall i :: 0 <= i < |name| ==> q[|dir| + 1 + i] == name[i];
    }
    LastSegmentAfterSeparator(ToForwardSlashes(dir), '/', name);
  }

  /** `handleDownload`: an empty name sends nothing; any other name is
      requested from `/api/download/<name>`. */
  function DownloadRequest(filename: string): (r: Option<string>)
    ensures r.None? <==> filename == ""
    ensures r.Some? ==> StartsWith(r.value, "/api/download/") && r.value[|"/api/download/"|..] == filename
  {
    if filename == "" then None else Some("/api/download/" + filename)
  }

  /** The Download button is disabled exactly when `thumbnailFile` is
      falsy: absent or empty. */
  predicate DownloadDisabled(job: ClientJob) {
    job.thumbnailFile.None? || job.thumbnailFile.value == ""
  }

  /** What a click on a completed job's Download button requests: nothing
      when the button is disabled or the displayed name is empty. The
      displayed name stands in for `displayThumbnailFile!`. */
  function DownloadClick(job: ClientJob): (r: Option<string>)
    requires job.status == Completed
    ensures r.Some? <==> !DownloadDisabled(job) && FilenameFromPath(job.thumbnailFile).value != ""
    ensures r.Some? ==> r == DownloadRequest(FilenameFromPath(job.thumbnailFile).value)
    ensures r.Some? ==> '/' !in r.value[|"/api/download/"|..]
  {
    if DownloadDisabled(job) then None
    else DownloadRequest(FilenameFromPath(job.thumbnailFile).GetOr(""))
  }

  /** End to end: the bare thumbnail name the worker stores is what the list
      shows and what the button asks for, and the server's corrected guard
      reads it from the uploads directory, so the download is served
      whenever that file exists. */
  lemma StoredThumbnailDownloads(job: ClientJob, now: nat, appDir: string, existing: set<string>)
    requires job.status == Completed && job.thumbnailFile == Some(ThumbnailName(now))
    requires Absolute(appDir)
    ensures FilenameFromPath(job.thumbnailFile) == Some(ThumbnailName(now))
    ensures DownloadClick(job) == Some("/api/download/" + ThumbnailName(now))
    ensures DownloadPath(appDir, ThumbnailName(now)) == UploadsBase(appDir) + "/" + ThumbnailName(now)
    ensures DownloadPath(appDir, ThumbnailName(now)) in existing ==> DownloadGuard(appDir, ThumbnailName(now), existing)
  {
    var name := ThumbnailName(now);
    PlainNameShownAsIs(name);
    assert name[0] == 't';
    GuardAdmitsPlainNames(appDir, name, existing);
  }

  /** What went wrong in a download: an HTTP error reply (with the body's
      `error` field, if any), another `Error`, or anything else thrown. */
  datatype DownloadFailure =
    | ReplyError(bodyError: Option<string>, message: string)
    | PlainError(message: string)
    | Unknown

  /** The alert a failed download shows: the reply's `error` field if it is
      non-empty, otherwise the error's message. */
  function DownloadAlert(f: DownloadFailure): (r: string)
    ensures StartsWith(r, "Failed to download file")
    ensures f.ReplyError? && f.bodyError.Some? && f.bodyError.value != ""
            ==> r == "Failed to download file: " + f.bodyError.value
    ensures f.ReplyError? && (f.bodyError.None? || f.bodyError.value == "")
            ==> r == "Failed to download file: " + f.message
    ensures f.PlainError? ==> r == "Failed to download file: " + f.message
    ensures f.Unknown? ==> r == "Failed to download file"
  {
    match f
    case ReplyError(bodyError, message) =>
      "Failed to download file: " + (if bodyError.Some? && bodyError.value != "" then bodyError.value else message)
    case PlainError(message) => "Failed to download file: " + message
    case Unknown => "Failed to download file"
  }

  /** The file label: the client's name if non-empty, else the displayed
      name of the stored file, else `Unknown file`. */
  function FileLabel(job: ClientJob): (r: string)
    ensures r != ""
    ensures job.originalName.Some? && job.originalName.value != "" ==> r == job.originalName.value
    ensures (job.originalName.None? || job.originalName.value == "") && job.originalFile == ""
            ==> r == "Unknown file"
    ensures (job.originalName.None? || job.originalName.value == "") && job.originalFile != "" ==>
      var shown := LastSegment(ToForwardSlashes(job.originalFile), '/');
      r == (if shown != "" then shown else "Unknown file")
  {
    if job.originalName.Some? && job.originalName.value != "" then job.originalName.value
    else
      var shown := FilenameFromPath(Some(job.originalFile));
      if shown.Some? && shown.value != "" then shown.value else "Unknown file"
  }
}
