/** What the progress route does with each line of yt-dlp's standard output
    and each chunk of its standard error while a download runs: progress
    facts update the job, destination, already-downloaded and merger lines
    name the output file, marker lines set fixed progress values. */
module Progress {
  import opened Wrappers
  import opened Text
  import opened Numbers
  import opened Size
  import opened Lines
  import opened Jobs

  /** `parseFloat` of the captured percentage. */
  function PercentValue(f: ProgressFact): (v: real)
    requires WellFormed(f)
    ensures v >= 0.0
  {
    PercentTextChars(f.percent);
    ParseDecimalBounds(f.percent);
    ParseDecimal(f.percent).value
  }

  /** The phase scaling of a single-format download: a video fills the first
      half of the bar, an audio the second; other types are not scaled. */
  function Scale(kind: string, p: real): real {
    if kind == "video" then p / 2.0
    else if kind == "audio" then 50.0 + p / 2.0
    else p
  }

  /** Scaling maps 0–100 onto 0–50 for a video and onto 50–100 for an audio,
      and keeps the order of percentages. */
  lemma ScaleBounds(kind: string, p: real, q: real)
    requires 0.0 <= p <= q <= 100.0
    ensures kind == "video" ==> 0 <= Round(Scale(kind, p)) <= 50
    ensures kind == "audio" ==> 50 <= Round(Scale(kind, p)) <= 100
    ensures Round(Scale(kind, p)) <= Round(Scale(kind, q))
  {
    RoundMonotonic(Scale(kind, p), Scale(kind, q));
  }

  /** The handler that reads the lines: the merged video+audio download, a
      single-format download of the given type, the audio download, or the
      best-quality download. */
  datatype Mode = Combined | Single(kind: string) | Audio | Best

  /** The per-download variables of a handler: the job, `outputFilename`
      and, for the audio download, `downloadComplete`. */
  datatype Scan = Scan(job: Job, output: Option<string>, complete: bool)

  /** A later match replaces the earlier value. */
  function Override(prior: Option<string>, later: Option<string>): Option<string> {
    if later.Some? then later else prior
  }

  /** The file name a line gives the handler, if any: of the patterns the
      handler tries, the last that matches. */
  function NameOf(mode: Mode, line: string): Option<string> {
    var dest := Override(MatchDestination(line), MatchAlready(line));
    if mode.Combined? then Override(dest, MatchMerger(line)) else dest
  }

  /** A progress line updates percentage, speed, time left and total size.
      The size is read with the corrected `parseSize`; the two readings
      differ only on units named like inherited object properties. */
  function ApplyFact(job: Job, f: ProgressFact, kind: string): Job
    requires WellFormed(f)
  {
    job.(progress := Round(Scale(kind, PercentValue(f))), speed := f.speed, eta := f.eta,
         totalBytes := ParseSize(f.size))
  }

  /** The scaling a handler applies. */
  function KindOf(mode: Mode): string {
    if mode.Single? then mode.kind else ""
  }

  /** One line through a handler, its checks in the order the handler makes
      them. */
  function ScanLine(mode: Mode, sc: Scan, line: string): Scan {
    var j1 := match MatchProgress(line)
      case Some(f) => ApplyFact(sc.job, f, KindOf(mode))
      case None => sc.job;
    var j2 :=
      if mode.Combined? && IsMergeLine(line) then j1.(currentFile := "Merging video and audio...", progress := 95)
      else if mode.Audio? && IsAudioDoneLine(line) then j1.(progress := 100)
      else j1;
    var done := sc.complete || (mode.Audio? && (IsAudioDoneLine(line) || MatchAlready(line).Some?));
    Scan(j2, Override(sc.output, NameOf(mode, line)), done)
  }

  /** The lines in order, the first line first. */
  function ScanLines(mode: Mode, sc: Scan, lines: seq<string>): Scan
    decreases |lines|
  {
    if lines == [] then sc
    else ScanLine(mode, ScanLines(mode, sc, lines[..|lines| - 1]), lines[|lines| - 1])
  }

  /** The handler's name pattern as a function of the line. */
  function Namer(mode: Mode): string -> Option<string> {
    (line: string) => NameOf(mode, line)
  }

  /** The value `f` gives the last line for which it gives one. */
  function LastGiven<T>(lines: seq<string>, f: string -> Option<T>): (r: Option<T>)
    ensures r.Some? ==> exists i | 0 <= i < |lines| :: (f(lines[i]) == r
      && forall j | i < j < |lines| :: f(lines[j]).None?)
    ensures r.None? ==> forall i | 0 <= i < |lines| :: f(lines[i]).None?
  {
    if lines == [] then None
    else if f(lines[|lines| - 1]).Some? then f(lines[|lines| - 1])
    else
      var init := lines[..|lines| - 1];
      var r := LastGiven(init, f);
      assert forall j | 0 <= j < |init| :: init[j] == lines[j];
      r
  }

  /** The name given by the last line that gives one. */
  function LastName(mode: Mode, lines: seq<string>): Option<string> {
    LastGiven(lines, Namer(mode))
  }

  /** The output file is named by the last line that names one; without such
      a line it stays what it was. */
  lemma {:induction false} OutputIsLastName(mode: Mode, sc: Scan, lines: seq<string>)
    ensures ScanLines(mode, sc, lines).output == Override(sc.output, LastName(mode, lines))
    decreases |lines|
  {
    if lines != [] {
      OutputIsLastName(mode, sc, lines[..|lines| - 1]);
    }
  }

  /** A line no pattern and no marker matches leaves the handler's state as
      it was. */
  lemma UnmatchedLineKeepsState(mode: Mode, sc: Scan, line: string)
    requires MatchProgress(line).None? && NameOf(mode, line).None?
    requires !IsMergeLine(line) && !IsAudioDoneLine(line)
    ensures ScanLine(mode, sc, line) == sc
  {
  }

  /** A progress line, with no marker on it, sets the four progress fields
      and touches nothing else of the job. */
  lemma ProgressLineSetsFields(mode: Mode, sc: Scan, f: ProgressFact, rest: string)
    requires WellFormed(f) && (rest == "" || IsSpace(rest[0]))
    requires !(mode.Combined? && IsMergeLine(Render(f) + rest))
    requires !(mode.Audio? && IsAudioDoneLine(Render(f) + rest))
    ensures var j := ScanLine(mode, sc, Render(f) + rest).job;
      && j.progress == Round(Scale(KindOf(mode), PercentValue(f)))
      && j.speed == f.speed && j.eta == f.eta && j.totalBytes == ParseSize(f.size)
      && j.(progress := sc.job.progress, speed := sc.job.speed, eta := sc.job.eta, totalBytes := sc.job.totalBytes) == sc.job
    ensures SplitSize(f.size).None? || SplitSize(f.size).value.1 !in InheritedNames ==>
      ScanLine(mode, sc, Render(f) + rest).job.totalBytes == ParseSizeAsWritten(f.size)
  {
    ProgressRoundTrip(f, rest);
    if SplitSize(f.size).None? || SplitSize(f.size).value.1 !in InheritedNames {
      AsWrittenAgrees(f.size);
    }
  }

  /** A merger marker puts the merged download at 95 per cent. */
  lemma MergeMarkerSets95(sc: Scan, line: string)
    requires IsMergeLine(line)
    ensures ScanLine(Combined, sc, line).job.progress == 95
    ensures ScanLine(Combined, sc, line).job.currentFile == "Merging video and audio..."
  {}

  /** The audio download counts as complete once some line carried a
      completion marker. */
  lemma {:induction false} AudioCompleteIffMarker(sc: Scan, lines: seq<string>)
    ensures ScanLines(Audio, sc, lines).complete <==>
      sc.complete || exists i | 0 <= i < |lines| :: IsAudioDoneLine(lines[i])
    decreases |lines|
  {
    if lines != [] {
      var init := lines[..|lines| - 1];
      var last := lines[|lines| - 1];
      AudioCompleteIffMarker(sc, init);
      AlreadyLineIsDone(last);
      assert forall i | 0 <= i < |init| :: init[i] == lines[i];
      if exists i | 0 <= i < |lines| :: IsAudioDoneLine(lines[i]) {
        var i :| 0 <= i < |lines| && IsAudioDoneLine(lines[i]);
        if i < |init| {
          assert IsAudioDoneLine(init[i]);
        }
      }
    }
  }

  /** A line the already-downloaded pattern matches carries the marker text. */
  lemma AlreadyLineIsDone(line: string)
    ensures MatchAlready(line).Some? ==> IsAudioDoneLine(line)
  {
    if MatchAlready(line).Some? {
      AlreadyHasMarker(line);
    }
  }

  /** What the already-downloaded pattern matched contains its marker text. */
  lemma AlreadyHasMarker(line: string)
    requires MatchAlready(line).Some?
    ensures Contains(line, AlreadyWords)
  {
    var i :| 0 <= i <= |line| && AlreadyAt(line[i..]) == MatchAlready(line);
    AlreadyAtHasMarker(line[i..]);
    ContainsOfSuffix(line, i, AlreadyWords);
  }

  lemma AlreadyAtHasMarker(s: string)
    requires AlreadyAt(s).Some?
    ensures Contains(s, AlreadyWords)
  {
    var a := Lit(s, "[download]").value;
    var k := LastIn(1, Run(a, 0, IsSpace), CaptureEnds(a)).value;
    var e := AlreadyEnd(a, k).value;
    var t := a[e..];
    var r := Spaces(t).value;
    assert StartsWith(r, AlreadyWords);
    assert s[10 + e + (|t| - |r|)..] == r;
    ContainsAtSuffix(s, 10 + e + (|t| - |r|), AlreadyWords);
  }

  /** `output.split('\n')` for every chunk, the lines of all chunks in order. */
  function LinesOf(chunks: seq<string>): seq<string> {
    if chunks == [] then [] else LinesOf(chunks[..|chunks| - 1]) + Split(chunks[|chunks| - 1], '\n')
  }

  /** The standard-error handler of the single-format and best-quality
      downloads: a chunk containing `ERROR:` becomes the job's error. */
  function RecordErrors(job: Job, chunks: seq<string>): Job {
    if chunks == [] then job
    else
      var j := RecordErrors(job, chunks[..|chunks| - 1]);
      var c := chunks[|chunks| - 1];
      if IsErrorChunk(c) then j.(error := Some(c)) else j
  }

  /** The last chunk that contains `ERROR:`. */
  function LastErrorChunk(chunks: seq<string>): (r: Option<string>)
    ensures r.Some? ==> r.value in chunks && IsErrorChunk(r.value)
    ensures r.None? <==> forall c | c in chunks :: !IsErrorChunk(c)
  {
    if chunks == [] then None
    else if IsErrorChunk(chunks[|chunks| - 1]) then Some(chunks[|chunks| - 1])
    else
      var r := LastErrorChunk(chunks[..|chunks| - 1]);
      assert forall c | c in chunks :: c in chunks[..|chunks| - 1] || c == chunks[|chunks| - 1];
      r
  }

  /** Only standard error that reports an error is recorded, the last such
      chunk wins, and nothing but the error field changes. */
  lemma {:induction false} RecordedErrorIsLast(job: Job, chunks: seq<string>)
    ensures RecordErrors(job, chunks).error == Override(job.error, LastErrorChunk(chunks))
    ensures RecordErrors(job, chunks).(error := job.error) == job
    decreases |chunks|
  {
    if chunks != [] {
      RecordedErrorIsLast(job, chunks[..|chunks| - 1]);
    }
  }

  /** `errorOutput += chunk` over all chunks. */
  function Concat(chunks: seq<string>): string {
    if chunks == [] then "" else Concat(chunks[..|chunks| - 1]) + chunks[|chunks| - 1]
  }
}
