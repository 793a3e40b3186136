/** The download job record the progress route keeps for each request, the
    shared registry of jobs, the start and poll handlers, and the age sweep
    that runs every ten minutes and removes jobs older than an hour. */
module Jobs {
  import opened Wrappers
  import opened Text
  import opened Numbers
  import opened Paths

  /** `status`: 'starting', 'downloading', 'completed' or 'error'. */
  datatype Status = Starting | Downloading | Completed | Failed

  function StatusName(s: Status): string {
    match s
    case Starting => "starting"
    case Downloading => "downloading"
    case Completed => "completed"
    case Failed => "error"
  }

  /** A download job. `error` and `tempFilePath` are absent until set;
      `finalPath` is never written after creation and is left out. */
  datatype Job = Job(
    id: string,
    status: Status,
    progress: int,
    speed: string,
    eta: string,
    downloadedBytes: int,
    totalBytes: JsNumber,
    currentFile: string,
    error: Option<string>,
    filename: string,
    tempDir: string,
    tempFilePath: Option<string>,
    readyForSave: bool)

  /** The shared registry, keyed by download id. */
  type Registry = map<string, Job>

  /** A handler's answer: a value, or an HTTP error status with its message. */
  datatype Answer<T> = Ok(value: T) | Refused(code: int, message: string)

  /** One hour in milliseconds. */
  const MaxAge: int := 60 * 60 * 1000

  const ReadyNote: string := "Download completed - Ready to save"

  /** The state a job starts in. */
  function NewJob(id: string, tempDir: string): Job {
    Job(id, Starting, 0, "", "", 0, Finite(0.0), "", None, "", tempDir, None, false)
  }

  /** The completion step: every success path sets these fields together. */
  function Complete(job: Job, path: string, name: string): Job {
    job.(status := Completed, progress := 100, filename := name, tempFilePath := Some(path),
         readyForSave := true, currentFile := ReadyNote)
  }

  /** The failure step: status 'error' and the message. */
  function Fail(job: Job, message: string): Job {
    job.(status := Failed, error := Some(message))
  }

  /** A job as the completion step leaves it. */
  predicate IsReady(job: Job) {
    && job.status == Completed && job.progress == 100 && job.readyForSave
    && Truthy(job.tempFilePath) && job.filename == Basename(job.tempFilePath.value)
    && job.currentFile == ReadyNote
  }

  /** The temporary directory of a download: `<tmp>/ytdownloader/<id>`. */
  function JobDir(tmp: string, id: string): string {
    Join(Join(tmp, "ytdownloader"), id)
  }

  /** `POST /api/download-progress`: a missing URL is refused; otherwise the
      id is the current time in milliseconds and a fresh job is registered
      under it. */
  function Submit(reg: Registry, url: Option<string>, now: nat, tmp: string): (Answer<string>, Registry) {
    if !Truthy(url) then (Refused(400, "URL is required"), reg)
    else
      var id := IntToString(now);
      (Ok(id), reg[id := NewJob(id, JobDir(tmp, id))])
  }

  /** `GET /api/download-progress?id=…`. */
  function Poll(reg: Registry, id: Option<string>): Answer<Job> {
    if !Truthy(id) then Refused(400, "Download ID is required")
    else if id.value !in reg then Refused(404, "Download not found")
    else Ok(reg[id.value])
  }

  /** A start request either is refused with 400 and changes nothing, or
      registers a starting job that a poll with the returned id finds, and
      leaves every other id alone. */
  lemma SubmitThenPoll(reg: Registry, url: Option<string>, now: nat, tmp: string)
    ensures var (answer, reg') := Submit(reg, url, now, tmp);
      !Truthy(url) ==> answer == Refused(400, "URL is required") && reg' == reg
    ensures var (answer, reg') := Submit(reg, url, now, tmp);
      Truthy(url) ==>
        && answer.Ok? && ParseInt(answer.value) == Some(now as int)
        && Poll(reg', Some(answer.value)).Ok?
        && var job := Poll(reg', Some(answer.value)).value;
        && job.id == answer.value && job.status == Starting && job.progress == 0
        && !job.readyForSave && job.tempFilePath.None? && job.error.None?
        && job.tempDir == JobDir(tmp, answer.value)
        && forall other | other != answer.value :: Poll(reg', Some(other)) == Poll(reg, Some(other))
  {
    if Truthy(url) {
      var id := IntToString(now);
      var reg' := reg[id := NewJob(id, JobDir(tmp, id))];
      assert Submit(reg, url, now, tmp) == (Ok(id), reg');
      IdReadsBack(now);
      assert Poll(reg', Some(id)) == Ok(NewJob(id, JobDir(tmp, id)));
      forall other | other != id ensures Poll(reg', Some(other)) == Poll(reg, Some(other)) {
      }
    }
  }

  /** An id made from a time reads back as that time. */
  lemma IdReadsBack(t: nat)
    ensures ParseInt(IntToString(t)) == Some(t as int)
  {
    ParseIntOfRendering(t, "");
    assert IntToString(t) + "" == IntToString(t);
  }

  /** `now - parseInt(id) > maxAge`; an id that does not parse compares as
      NaN and never counts as stale. */
  predicate Stale(id: string, now: int) {
    match ParseInt(id)
    case Some(n) => now - n > MaxAge
    case None => false
  }

  /** What the sweep promises: the stale entries are gone, every other entry
      is still there and unchanged. */
  ghost predicate SweptTo(reg: Registry, now: int, kept: Registry) {
    && (forall id :: id in kept <==> id in reg && !Stale(id, now))
    && (forall id | id in kept :: kept[id] == reg[id])
  }

  /** The directories of the removed entries whose `tempDir` is set. */
  function StaleDirs(reg: Registry, now: int): set<string> {
    set id | id in reg && Stale(id, now) && reg[id].tempDir != "" :: reg[id].tempDir
  }

  /** The age sweep: walks the registry, deletes each stale entry and
      collects the directories to remove. */
  method Sweep(reg: Registry, now: int) returns (kept: Registry, dirs: set<string>)
    ensures SweptTo(reg, now, kept)
    ensures dirs == StaleDirs(reg, now)
  {
    kept := reg;
    dirs := {};
    var pending := reg.Keys;
    while pending != {}
      invariant pending <= reg.Keys
      invariant forall id :: id in kept <==> id in reg && (id in pending || !Stale(id, now))
      invariant forall id | id in kept :: kept[id] == reg[id]
      invariant dirs == set id | id in reg && id !in pending && Stale(id, now) && reg[id].tempDir != "" :: reg[id].tempDir
      decreases pending
    {
      var id :| id in pending;
      if Stale(id, now) {
        if reg[id].tempDir != "" {
          dirs := dirs + {reg[id].tempDir};
        }
        kept := kept - {id};
      }
      pending := pending - {id};
    }
  }

  /** A second sweep at the same time removes nothing more. */
  lemma SweepIdempotent(reg: Registry, now: int, once: Registry, twice: Registry)
    requires SweptTo(reg, now, once) && SweptTo(once, now, twice)
    ensures twice == once
  {
    assert twice.Keys == once.Keys;
  }

  /** A job registered at time `t` is swept at `now` exactly when more than
      an hour has passed. */
  lemma StaleOfSubmitted(t: nat, now: int)
    ensures Stale(IntToString(t), now) <==> now - t > MaxAge
  {
    IdReadsBack(t);
  }
}
