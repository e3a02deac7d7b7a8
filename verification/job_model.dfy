/** The job record of server/models/Job.js, the documents the upload route
    builds, the writes the server issues against the job store, and the
    per-owner listing. */
module JobModel {
  import opened Wrappers

  /** The values the schema's `status` enum admits. */
  datatype Status = Pending | Queued | Processing | Completed | Failed

  function StatusName(s: Status): string {
    match s
    case Pending => "pending"
    case Queued => "queued"
    case Processing => "processing"
    case Completed => "completed"
    case Failed => "failed"
  }

  /** The schema's enum check: a status string is accepted exactly when it
      names one of the five statuses. */
  function ParseStatus(name: string): (r: Option<Status>)
    ensures r.Some? ==> StatusName(r.value) == name
    ensures r.None? ==> forall s: Status :: StatusName(s) != name
  {
    if name == "pending" then Some(Pending)
    else if name == "queued" then Some(Queued)
    else if name == "processing" then Some(Processing)
    else if name == "completed" then Some(Completed)
    else if name == "failed" then Some(Failed)
    else None
  }

  /** A stored job: the store's `_id` plus the fields the schema declares. */
  datatype JobRecord = JobRecord(
    id: string,
    userId: string,
    originalFile: string,
    thumbnailFile: Option<string>,
    status: Status,
    createdAt: nat)

  /** The values handed to the schema when a document is built; any of them
      may be left out. */
  datatype JobInput = JobInput(
    userId: Option<string>,
    originalFile: Option<string>,
    thumbnailFile: Option<string>,
    status: Option<string>,
    createdAt: Option<nat>)

  /** A failed validation, listing the offending paths in schema order. */
  datatype SchemaError = SchemaError(paths: seq<string>)

  /** A required string is missing when absent or empty. */
  predicate HasText(v: Option<string>) {
    v.Some? && v.value != ""
  }

  predicate ValidStatus(v: Option<string>) {
    v.None? || ParseStatus(v.value).Some?
  }

  /** Building and validating a record: `userId` and `originalFile` are
      required, `status` must be in the enum and defaults to `pending`,
      `createdAt` defaults to the creation time `now`, and `thumbnailFile`
      is optional with no default. */
  function NewRecord(id: string, input: JobInput, now: nat): (r: Result<JobRecord, SchemaError>)
    ensures r.Ok? <==> input.userId.Some? && HasText(input.originalFile) && ValidStatus(input.status)
    ensures r.Ok? ==> (r.value.id == id && Some(r.value.userId) == input.userId
                       && Some(r.value.originalFile) == input.originalFile
                       && r.value.thumbnailFile == input.thumbnailFile
                       && r.value.createdAt == input.createdAt.GetOr(now))
    ensures r.Ok? && input.status.None? ==> r.value.status == Pending
    ensures r.Ok? && input.status.Some? ==> StatusName(r.value.status) == input.status.value
    ensures r.Err? ==> (("userId" in r.error.paths <==> input.userId.None?)
                        && ("originalFile" in r.error.paths <==> !HasText(input.originalFile))
                        && ("status" in r.error.paths <==> !ValidStatus(input.status)))
  {
    var missing :=
      (if input.userId.None? then ["userId"] else [])
      + (if !HasText(input.originalFile) then ["originalFile"] else [])
      + (if !ValidStatus(input.status) then ["status"] else []);
    if missing != [] then Err(SchemaError(missing))
    else
      Ok(JobRecord(
        id,
        input.userId.value,
        input.originalFile.value,
        input.thumbnailFile,
        if input.status.None? then Pending else ParseStatus(input.status.value).value,
        input.createdAt.GetOr(now)))
  }

  /** The document the upload route builds for one received file. Fields the
      schema does not declare (`filename`, `originalName`, `mimetype`,
      `size`, `error`) are set by the route; whether they survive saving and
      serialisation depends on the store library's strict mode, so the
      stored record keeps only the declared ones. */
  datatype JobDoc = JobDoc(
    id: string,
    userId: string,
    originalFile: string,
    filename: string,
    originalName: string,
    mimetype: string,
    size: nat,
    status: Status,
    error: Option<string>,
    createdAt: nat)

  /** The schema-declared part of a document. */
  function InputOf(doc: JobDoc): JobInput {
    JobInput(Some(doc.userId), Some(doc.originalFile), None, Some(StatusName(doc.status)), Some(doc.createdAt))
  }

  function RecordOf(doc: JobDoc): JobRecord {
    JobRecord(doc.id, doc.userId, doc.originalFile, None, doc.status, doc.createdAt)
  }

  /** A document with a source path passes schema validation, and the stored
      record is its schema-declared part. */
  lemma DocConforms(doc: JobDoc, now: nat)
    requires doc.originalFile != ""
    ensures NewRecord(doc.id, InputOf(doc), now) == Ok(RecordOf(doc))
  {
    match doc.status
    case Pending =>
    case Queued =>
    case Processing =>
    case Completed =>
    case Failed =>
  }

  /** One write the server issues against the store: the first `save` of a
      new document, or a later status change (`findByIdAndUpdate` or a second
      `save`). No write checks the status it replaces. */
  datatype StoreWrite =
    | Insert(doc: JobDoc)
    | Update(jobId: string, status: Status, thumbnailFile: Option<string>, error: Option<string>)
  {
    function Target(): string {
      match this
      case Insert(doc) => doc.id
      case Update(id, _, _, _) => id
    }

    function NewStatus(): Status {
      match this
      case Insert(doc) => doc.status
      case Update(_, s, _, _) => s
    }
  }

  type Store = map<string, JobRecord>

  /** The effect of a write on the schema-declared fields: an insert stores
      the document, an update of a missing id matches nothing, and an update
      of a present id replaces its status (and its thumbnail when it sets
      one). */
  function ApplyWrite(store: Store, w: StoreWrite): (r: Store)
    ensures r.Keys == store.Keys + (if w.Insert? then {w.doc.id} else {})
    ensures w.Target() in r ==> (r[w.Target()].status == w.NewStatus()
                                 || (w.Update? && w.jobId !in store))
    ensures forall k :: k in store && k != w.Target() ==> k in r && r[k] == store[k]
    ensures w.Insert? ==> r[w.doc.id] == RecordOf(w.doc)
    ensures w.Update? && w.jobId !in store ==> r == store
    ensures w.Update? && w.jobId in store ==>
      r[w.jobId] == store[w.jobId].(status := w.status,
                                    thumbnailFile := if w.thumbnailFile.Some? then w.thumbnailFile
                                                     else store[w.jobId].thumbnailFile)
  {
    match w
    case Insert(doc) => store[doc.id := RecordOf(doc)]
    case Update(id, status, thumb, _) =>
      if id in store then
        var prior := store[id];
        store[id := prior.(status := status, thumbnailFile := if thumb.Some? then thumb else prior.thumbnailFile)]
      else store
  }

  function ApplyWrites(store: Store, ws: seq<StoreWrite>): Store
    decreases |ws|
  {
    if |ws| == 0 then store else ApplyWrites(ApplyWrite(store, ws[0]), ws[1..])
  }

  /** Applying two batches of writes in turn is applying their
      concatenation. */
  lemma {:induction false} ApplyWritesConcat(store: Store, xs: seq<StoreWrite>, ys: seq<StoreWrite>)
    ensures ApplyWrites(store, xs + ys) == ApplyWrites(ApplyWrites(store, xs), ys)
    decreases |xs|
  {
    if |xs| > 0 {
      assert (xs + ys)[0] == xs[0];
      assert (xs + ys)[1..] == xs[1..] + ys;
      ApplyWritesConcat(ApplyWrite(store, xs[0]), xs[1..], ys);
    } else {
      assert xs + ys == ys;
    }
  }

  /** Applying one write, and two writes in turn. */
  lemma ApplyShortWrites(store: Store, w1: StoreWrite, w2: StoreWrite)
    ensures ApplyWrites(store, [w1]) == ApplyWrite(store, w1)
    ensures ApplyWrites(store, [w1, w2]) == ApplyWrite(ApplyWrite(store, w1), w2)
  {
    var s1 := ApplyWrite(store, w1);
    assert [w1][1..] == [];
    assert [w1, w2][1..] == [w2] && [w2][1..] == [];
    assert ApplyWrites(s1, [w2]) == ApplyWrites(ApplyWrite(s1, w2), []);
  }

  /** Applying a sequence of writes leaves the status of a present job equal
      to the status of the last write that targets it. */
  lemma {:induction false} LastWriteWins(store: Store, ws: seq<StoreWrite>, id: string)
    requires id in store
    requires |ws| > 0 && ws[|ws| - 1].Target() == id
    ensures id in ApplyWrites(store, ws)
    ensures ApplyWrites(store, ws)[id].status == ws[|ws| - 1].NewStatus()
    decreases |ws|
  {
    if |ws| > 1 {
      var s1 := ApplyWrite(store, ws[0]);
      assert ws[1..][|ws| - 2] == ws[|ws| - 1];
      LastWriteWins(s1, ws[1..], id);
    }
  }

  /** Writes to other ids leave an absent id absent. */
  lemma {:induction false} OtherWritesKeepAbsent(store: Store, ws: seq<StoreWrite>, id: string)
    requires id !in store
    requires forall k :: 0 <= k < |ws| ==> ws[k].Target() != id
    ensures id !in ApplyWrites(store, ws)
    decreases |ws|
  {
    if |ws| > 0 {
      OtherWritesKeepAbsent(ApplyWrite(store, ws[0]), ws[1..], id);
    }
  }

  /** Writes to other ids leave a record untouched. */
  lemma {:induction false} OtherWritesPreserve(store: Store, ws: seq<StoreWrite>, id: string)
    requires id in store
    requires forall k :: 0 <= k < |ws| ==> ws[k].Target() != id
    ensures id in ApplyWrites(store, ws) && ApplyWrites(store, ws)[id] == store[id]
    decreases |ws|
  {
    if |ws| > 0 {
      OtherWritesPreserve(ApplyWrite(store, ws[0]), ws[1..], id);
    }
  }

  /** The order `sort({ createdAt: -1 })` produces. */
  predicate NewestFirst(rs: seq<JobRecord>) {
    forall i, j :: 0 <= i < j < |rs| ==> rs[i].createdAt >= rs[j].createdAt
  }

  function OwnedBy(rs: seq<JobRecord>, owner: string): (r: seq<JobRecord>)
    ensures forall k :: 0 <= k < |r| ==> r[k].userId == owner
    ensures forall x :: x in rs && x.userId == owner <==> x in r
    decreases |rs|
  {
    if |rs| == 0 then []
    else if rs[0].userId == owner then [rs[0]] + OwnedBy(rs[1..], owner)
    else OwnedBy(rs[1..], owner)
  }

  function InsertNewestFirst(x: JobRecord, rs: seq<JobRecord>): (r: seq<JobRecord>)
    requires NewestFirst(rs)
    ensures NewestFirst(r)
    ensures multiset(r) == multiset(rs) + multiset{x}
    ensures |r| == |rs| + 1 && (r[0] == x || (|rs| > 0 && r[0] == rs[0]))
    decreases |rs|
  {
    if |rs| == 0 || x.createdAt >= rs[0].createdAt then [x] + rs
    else
      var tail := InsertNewestFirst(x, rs[1..]);
      assert rs == [rs[0]] + rs[1..];
      assert tail[0].createdAt <= rs[0].createdAt;
      [rs[0]] + tail
  }

  function SortNewestFirst(rs: seq<JobRecord>): (r: seq<JobRecord>)
    ensures NewestFirst(r)
    ensures multiset(r) == multiset(rs)
    decreases |rs|
  {
    if |rs| == 0 then []
    else
      assert rs == [rs[0]] + rs[1..];
      InsertNewestFirst(rs[0], SortNewestFirst(rs[1..]))
  }

  /** `Job.find({ userId }).sort({ createdAt: -1 })`: exactly the owner's
      records (with multiplicity), newest first. */
  function ListByOwner(rs: seq<JobRecord>, owner: string): (r: seq<JobRecord>)
    ensures NewestFirst(r)
    ensures multiset(r) == multiset(OwnedBy(rs, owner))
    ensures forall k :: 0 <= k < |r| ==> r[k].userId == owner
  {
    var r := SortNewestFirst(OwnedBy(rs, owner));
    forall k | 0 <= k < |r|
      ensures r[k].userId == owner
    {
      assert r[k] in multiset(OwnedBy(rs, owner));
    }
    r
  }

  /** A record is listed exactly when it is in the store and the requester
      owns it. */
  lemma ListedIffOwned(rs: seq<JobRecord>, owner: string, x: JobRecord)
    ensures x in ListByOwner(rs, owner) <==> x in rs && x.userId == owner
  {
    var r := ListByOwner(rs, owner);
    assert x in r <==> x in multiset(r);
    assert x in OwnedBy(rs, owner) <==> x in multiset(OwnedBy(rs, owner));
  }
}
