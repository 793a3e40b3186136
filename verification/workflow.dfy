/** `startDownload` and the four download handlers of the progress route,
    with the process run, the directory listing at exit and the outcome of
    the MP3 conversion given as inputs. */
module Workflow {
  import opened Wrappers
  import opened Text
  import opened Paths
  import opened Files
  import opened Jobs
  import opened Progress
  import opened Artifacts

  /** The handler a request goes to. */
  datatype Kind = Merged | AudioOnly | VideoOnly | BestQuality

  /** The dispatch on the request's `type`: the merged download needs both
      format ids; anything unrecognised downloads the best quality. */
  function Dispatch(kind: Option<string>, videoId: Option<string>, audioId: Option<string>): Kind {
    if kind == Some("video+audio") && Truthy(videoId) && Truthy(audioId) then Merged
    else if kind == Some("audio") then AudioOnly
    else if kind == Some("video") then VideoOnly
    else BestQuality
  }

  /** Each handler is chosen for exactly the requests it serves. */
  lemma DispatchCases(kind: Option<string>, videoId: Option<string>, audioId: Option<string>)
    ensures Dispatch(kind, videoId, audioId) == Merged <==>
      kind == Some("video+audio") && Truthy(videoId) && Truthy(audioId)
    ensures Dispatch(kind, videoId, audioId) == AudioOnly <==> kind == Some("audio")
    ensures Dispatch(kind, videoId, audioId) == VideoOnly <==> kind == Some("video")
    ensures Dispatch(kind, videoId, audioId) == BestQuality <==>
      kind !in {Some("audio"), Some("video"), Some("video+audio")}
      || (kind == Some("video+audio") && !(Truthy(videoId) && Truthy(audioId)))
  {}

  /** A run of yt-dlp: it exits with a code (None when killed by a signal)
      after writing its output chunks, or it cannot be spawned. */
  datatype Run = Exit(code: Option<int>, stdout: seq<string>, stderr: seq<string>) | SpawnError(message: string)

  /** `${code}`. */
  function CodeText(code: Option<int>): string {
    match code
    case Some(n) => IntToString(n)
    case None => "null"
  }

  /** `text || 'Unknown error'`. */
  function OrUnknown(text: string): string {
    if text != "" then text else "Unknown error"
  }

  /** The status and note a handler shows while yt-dlp runs. */
  function Begin(job: Job, kind: Kind): Job {
    var note := match kind
      case Merged => "Starting video+audio download..."
      case AudioOnly => "Downloading audio..."
      case VideoOnly => "Downloading video..."
      case BestQuality => "Downloading...";
    job.(status := Downloading, currentFile := note)
  }

  /** The handler's line scanner. */
  function ModeOf(kind: Kind): Mode {
    match kind
    case Merged => Combined
    case AudioOnly => Audio
    case VideoOnly => Single("video")
    case BestQuality => Best
  }

  /** The handler's variables once all output has been read. */
  function ScanRun(job: Job, kind: Kind, stdout: seq<string>): Scan {
    ScanLines(ModeOf(kind), Scan(job, None, false), LinesOf(stdout))
  }

  /** The completion step with the file's base name, after the `!file` check
      of the audio and video handlers. */
  function Finish(job: Job, file: string, missing: string): Job {
    if file == "" then Fail(job, missing) else Complete(job, file, Basename(file))
  }

  /** The close handler of the merged download: the first `.mp4` of the
      directory, else the announced file, else an error. */
  function MergedClose(sc: Scan, code: Option<int>, stderr: seq<string>, fs: Fs): Job {
    var dir := sc.job.tempDir;
    if code != Some(0) then Fail(sc.job, "Video+Audio download failed: " + OrUnknown(Concat(stderr)))
    else match Listing(fs, dir)
      case None => Fail(sc.job, ScandirMessage(dir))
      case Some(files) =>
        match FirstMp4(files)
        case Some(name) => Complete(sc.job, Join(dir, name), name)
        case None =>
          if Truthy(sc.output) then Complete(sc.job, sc.output.value, Basename(sc.output.value))
          else Fail(sc.job, "No merged file found after download")
  }

  /** The file the audio download settles on once the directory is read:
      the newest audio medium, converted to MP3 when it is not one already,
      else the announced file if it exists. */
  function AudioFile(sc: Scan, files: seq<FileEntry>, fs: Fs, converts: bool): (r: (Job, Option<string>))
    ensures r.0.(currentFile := sc.job.currentFile) == sc.job
    ensures r.1.Some? ==> r.1.value != ""
  {
    var dir := sc.job.tempDir;
    match AudioChoice(files)
    case Some(f) =>
      var chosen := Join(dir, f.name);
      if !EndsWith(chosen, ".mp3") then
        (sc.job.(currentFile := "Converting to MP3..."), Some(if converts then Mp3Name(chosen, dir) else chosen))
      else (sc.job, Some(chosen))
    case None =>
      if Truthy(sc.output) && Exists(fs, sc.output.value) then (sc.job, sc.output) else (sc.job, None)
  }

  /** The close handler of the audio download. It also proceeds after a
      failed exit once a completion marker and a file name were seen. */
  function AudioClose(sc: Scan, code: Option<int>, stderr: seq<string>, fs: Fs, converts: bool): Job {
    var dir := sc.job.tempDir;
    if !(code == Some(0) || (sc.complete && Truthy(sc.output))) then
      Fail(sc.job, "Audio download failed: " + OrUnknown(Concat(stderr)))
    else match Listing(fs, dir)
      case None => Fail(sc.job, ScandirMessage(dir))
      case Some(files) =>
        var (job, file) := AudioFile(sc, files, fs, converts);
        match file
        case Some(path) => Finish(job, path, "Failed to download audio")
        case None => Fail(job, "No audio file found after download")
  }

  /** The close handler of the video download: exit 0 and an announced
      file, else an error naming the code and the recorded error. */
  function VideoClose(job: Job, output: Option<string>, code: Option<int>): Job {
    if code == Some(0) && Truthy(output) then Finish(job, output.value, "Failed to download video")
    else
      var recorded := if Truthy(job.error) then job.error.value else "Unknown error";
      Fail(job, "video download failed with code " + CodeText(code) + ": " + recorded)
  }

  /** The close handler of the best-quality download: the recorded error is
      kept, else the exit code is reported. */
  function BestClose(job: Job, output: Option<string>, code: Option<int>): Job {
    if code == Some(0) && Truthy(output) then Complete(job, output.value, Basename(output.value))
    else Fail(job, if Truthy(job.error) then job.error.value else "yt-dlp failed with code " + CodeText(code))
  }

  /** `startDownload` for a job, with the handler's outcome caught into the
      job. */
  function StartDownload(job: Job, kind: Kind, run: Run, fs: Fs, converts: bool): Job {
    var j0 := Begin(job, kind);
    match run
    case SpawnError(message) => Fail(j0, message)
    case Exit(code, stdout, stderr) =>
      var sc := ScanRun(j0, kind, stdout);
      match kind
      case Merged => MergedClose(sc, code, stderr, fs)
      case AudioOnly => AudioClose(sc, code, stderr, fs, converts)
      case VideoOnly => VideoClose(RecordErrors(sc.job, stderr), sc.output, code)
      case BestQuality => BestClose(RecordErrors(sc.job, stderr), sc.output, code)
  }

  /** `startDownload` on the registry: only the started job changes. */
  function Start(reg: Registry, id: string, kind: Kind, run: Run, fs: Fs, converts: bool): (r: Registry)
    ensures r.Keys == reg.Keys
    ensures forall other | other in reg && other != id :: r[other] == reg[other]
  {
    if id in reg then reg[id := StartDownload(reg[id], kind, run, fs, converts)] else reg
  }

  /** The completion step with a non-empty path leaves a ready job. */
  lemma CompleteIsReady(job: Job, path: string)
    requires path != ""
    ensures IsReady(Complete(job, path, Basename(path)))
  {}

  /** A job as a handler leaves it: ready to save, or failed with a
      message. */
  predicate Settled(r: Job) {
    (r.status == Completed && IsReady(r)) || (r.status == Failed && r.error.Some?)
  }

  /** A job settled by a handler is either ready to save or failed with a
      message, and it is still the job it was. */
  lemma DownloadSettles(job: Job, kind: Kind, run: Run, fs: Fs, converts: bool)
    requires WellFormed(fs)
    ensures Settled(StartDownload(job, kind, run, fs, converts))
    ensures StartDownload(job, kind, run, fs, converts).id == job.id
    ensures StartDownload(job, kind, run, fs, converts).tempDir == job.tempDir
  {
    var j0 := Begin(job, kind);
    var r := StartDownload(job, kind, run, fs, converts);
    if run.Exit? {
      var sc := ScanRun(j0, kind, run.stdout);
      ScanKeepsIdentity(j0, kind, run.stdout);
      var recorded := RecordErrors(sc.job, run.stderr);
      RecordedErrorIsLast(sc.job, run.stderr);
      match kind
      case Merged =>
        assert r == MergedClose(sc, run.code, run.stderr, fs);
        MergedSettles(sc, run.code, run.stderr, fs);
      case AudioOnly =>
        assert r == AudioClose(sc, run.code, run.stderr, fs, converts);
        AudioSettles(sc, run.code, run.stderr, fs, converts);
      case VideoOnly =>
        assert r == VideoClose(recorded, sc.output, run.code);
        VideoSettles(recorded, sc.output, run.code);
      case BestQuality =>
        assert r == BestClose(recorded, sc.output, run.code);
        BestSettles(recorded, sc.output, run.code);
    }
  }

  lemma MergedSettles(sc: Scan, code: Option<int>, stderr: seq<string>, fs: Fs)
    requires WellFormed(fs)
    ensures var r := MergedClose(sc, code, stderr, fs);
      Settled(r) && r.id == sc.job.id && r.tempDir == sc.job.tempDir
  {
    var dir := sc.job.tempDir;
    if code == Some(0) && dir in fs {
      var files := fs[dir];
      var name := FirstMp4(files);
      if name.Some? {
        var i :| 0 <= i < |files| && files[i].name == name.value;
        ListedExists(fs, dir, i);
      }
    }
  }

  lemma AudioSettles(sc: Scan, code: Option<int>, stderr: seq<string>, fs: Fs, converts: bool)
    ensures var r := AudioClose(sc, code, stderr, fs, converts);
      Settled(r) && r.id == sc.job.id && r.tempDir == sc.job.tempDir
  {
    var dir := sc.job.tempDir;
    if (code == Some(0) || (sc.complete && Truthy(sc.output))) && dir in fs {
      var (job, file) := AudioFile(sc, fs[dir], fs, converts);
      if file.Some? {
        CompleteIsReady(job, file.value);
      }
    }
  }

  lemma VideoSettles(job: Job, output: Option<string>, code: Option<int>)
    ensures var r := VideoClose(job, output, code);
      Settled(r) && r.id == job.id && r.tempDir == job.tempDir
  {}

  lemma BestSettles(job: Job, output: Option<string>, code: Option<int>)
    ensures var r := BestClose(job, output, code);
      Settled(r) && r.id == job.id && r.tempDir == job.tempDir
  {}

  /** Reading output lines never changes a job's id or directory. */
  lemma ScanKeepsIdentity(job: Job, kind: Kind, stdout: seq<string>)
    ensures ScanRun(job, kind, stdout).job.id == job.id
    ensures ScanRun(job, kind, stdout).job.tempDir == job.tempDir
  {
    ScanLinesKeepIdentity(ModeOf(kind), Scan(job, None, false), LinesOf(stdout));
  }

  lemma {:induction false} ScanLinesKeepIdentity(mode: Mode, sc: Scan, lines: seq<string>)
    ensures ScanLines(mode, sc, lines).job.id == sc.job.id
    ensures ScanLines(mode, sc, lines).job.tempDir == sc.job.tempDir
    decreases |lines|
  {
    if lines != [] {
      ScanLinesKeepIdentity(mode, sc, lines[..|lines| - 1]);
    }
  }

  /** The merged download takes the first `.mp4` in listing order, else the
      announced file, and fails when there is neither. */
  lemma MergedArtifact(sc: Scan, stderr: seq<string>, fs: Fs)
    requires WellFormed(fs) && sc.job.tempDir in fs
    ensures var r := MergedClose(sc, Some(0), stderr, fs); var files := fs[sc.job.tempDir];
      match FirstMp4(files)
      case Some(name) => r.tempFilePath == Some(Join(sc.job.tempDir, name)) && r.filename == name
      case None =>
        if Truthy(sc.output) then r.tempFilePath == sc.output && r.status == Completed
        else r.status == Failed && r.error == Some("No merged file found after download")
  {}

  /** A failed exit of the merged download reports standard error, or
      `Unknown error` when there was none. */
  lemma MergedFailureText(sc: Scan, code: Option<int>, stderr: seq<string>, fs: Fs)
    requires code != Some(0)
    ensures MergedClose(sc, code, stderr, fs).error ==
      Some("Video+Audio download failed: " + (if Concat(stderr) == "" then "Unknown error" else Concat(stderr)))
  {}

  /** The audio download keeps the newest audio medium: its MP3 conversion
      when that succeeds, else the medium itself. */
  lemma AudioArtifact(sc: Scan, code: Option<int>, stderr: seq<string>, fs: Fs, converts: bool)
    requires code == Some(0) && sc.job.tempDir in fs
    requires AudioChoice(fs[sc.job.tempDir]).Some?
    ensures var dir := sc.job.tempDir; var f := AudioChoice(fs[dir]).value;
      var chosen := Join(dir, f.name); var r := AudioClose(sc, code, stderr, fs, converts);
      && r.status == Completed
      && (forall g | g in fs[dir] && HasExtension(g.name, AudioMedia) :: g.mtime <= f.mtime)
      && r.tempFilePath == Some(if !EndsWith(chosen, ".mp3") && converts then Mp3Name(chosen, dir) else chosen)
  {
    ChoicesAreNewest(fs[sc.job.tempDir]);
  }

  /** The video download succeeds exactly when yt-dlp exits with 0 after
      naming its file; otherwise the message carries the code and the last
      `ERROR:` chunk. */
  lemma VideoOutcome(job: Job, run: Run, fs: Fs, converts: bool)
    requires run.Exit? && job.error.None?
    ensures var sc := ScanRun(Begin(job, VideoOnly), VideoOnly, run.stdout);
      var r := StartDownload(job, VideoOnly, run, fs, converts);
      && (r.status == Completed <==> run.code == Some(0) && Truthy(sc.output))
      && (r.status == Completed ==> r.tempFilePath == sc.output)
      && (r.status == Failed ==> r.error == Some("video download failed with code " + CodeText(run.code) + ": "
            + (match LastErrorChunk(run.stderr) case Some(c) => c case None => "Unknown error")))
  {
    var sc := ScanRun(Begin(job, VideoOnly), VideoOnly, run.stdout);
    ScanKeepsError(Begin(job, VideoOnly), VideoOnly, run.stdout);
    RecordedErrorIsLast(sc.job, run.stderr);
    ErrorChunkIsTruthy(run.stderr);
  }

  /** The best-quality download succeeds exactly when yt-dlp exits with 0
      after naming its file; otherwise it reports the last `ERROR:` chunk, or
      the exit code when there was none. */
  lemma BestOutcome(job: Job, run: Run, fs: Fs, converts: bool)
    requires run.Exit? && job.error.None?
    ensures var sc := ScanRun(Begin(job, BestQuality), BestQuality, run.stdout);
      var r := StartDownload(job, BestQuality, run, fs, converts);
      && (r.status == Completed <==> run.code == Some(0) && Truthy(sc.output))
      && (r.status == Completed ==> r.tempFilePath == sc.output)
      && (r.status == Failed ==> r.error == Some(match LastErrorChunk(run.stderr)
            case Some(c) => c
            case None => "yt-dlp failed with code " + CodeText(run.code)))
  {
    var sc := ScanRun(Begin(job, BestQuality), BestQuality, run.stdout);
    ScanKeepsError(Begin(job, BestQuality), BestQuality, run.stdout);
    RecordedErrorIsLast(sc.job, run.stderr);
    ErrorChunkIsTruthy(run.stderr);
  }

  /** A recorded chunk is never empty: it contains `ERROR:`. */
  lemma ErrorChunkIsTruthy(chunks: seq<string>)
    ensures LastErrorChunk(chunks).Some? ==> LastErrorChunk(chunks).value != ""
  {
    if LastErrorChunk(chunks).Some? {
      var c := LastErrorChunk(chunks).value;
      var i :| 0 <= i <= |c| - |"ERROR:"| && At(c, i, "ERROR:");
    }
  }

  /** Reading output lines never touches the job's error. */
  lemma ScanKeepsError(job: Job, kind: Kind, stdout: seq<string>)
    ensures ScanRun(job, kind, stdout).job.error == job.error
  {
    ScanLinesKeepError(ModeOf(kind), Scan(job, None, false), LinesOf(stdout));
  }

  lemma {:induction false} ScanLinesKeepError(mode: Mode, sc: Scan, lines: seq<string>)
    ensures ScanLines(mode, sc, lines).job.error == sc.job.error
    decreases |lines|
  {
    if lines != [] {
      ScanLinesKeepError(mode, sc, lines[..|lines| - 1]);
    }
  }
}
