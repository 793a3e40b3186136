/** The one-shot download route `POST /api/download`: the yt-dlp command
    line built from the request, the file it settles on when yt-dlp exits,
    and the reply. */
module Direct {
  import opened Wrappers
  import opened Text
  import opened Paths
  import opened Files
  import opened Lines
  import opened Jobs
  import opened Progress
  import opened Workflow
  import opened Serving

  /** The JSON body of the request; `format` is taken to be present. */
  datatype Request = Request(
    url: Option<string>,
    format: string,
    audioFormat: Option<string>,
    kind: Option<string>,
    startTime: Option<string>,
    endTime: Option<string>,
    subtitles: bool)

  predicate IsVideo(req: Request) { req.kind == Some("video") }

  /** The file extension and `Content-Type` of the download. */
  function Extension(req: Request): string { if IsVideo(req) then "mp4" else "m4a" }

  function ContentType(req: Request): string { if IsVideo(req) then "video/mp4" else "audio/mp4" }

  /** `download_<timestamp>.<ext>`. */
  function OutputName(req: Request, timestamp: nat): (name: string)
    ensures StartsWith(name, "download_")
    ensures IsVideo(req) ==> EndsWith(name, ".mp4")
    ensures !IsVideo(req) ==> EndsWith(name, ".m4a")
  {
    "download_" + NatToString(timestamp) + "." + Extension(req)
  }

  /** The timestamp in the middle of the output name reads back with
      `parseInt`, which stops at the dot of the extension. */
  lemma OutputNameReadsBack(req: Request, timestamp: nat)
    ensures var name := OutputName(req, timestamp);
      |name| > 9 && ParseInt(name[9..]) == Some(timestamp as int)
  {
    var name := OutputName(req, timestamp);
    assert name[9..] == IntToString(timestamp) + ("." + Extension(req));
    ParseIntOfRendering(timestamp, "." + Extension(req));
  }

  /** `format.split('|')[1] || 'm4a'`: the codec after the first bar. */
  function AudioCodec(format: string): (codec: string)
    ensures codec != ""
  {
    var parts := Split(format, '|');
    if |parts| > 1 && parts[1] != "" then parts[1] else "m4a"
  }

  /** A format with a bar names the codec between its first bar and the
      next one, `m4a` when that field is empty; one without a bar gets
      `m4a`. */
  lemma AudioCodecOf(a: string, c: string, rest: string)
    requires '|' !in a && '|' !in c
    requires rest == "" || rest[0] == '|'
    ensures AudioCodec(a + "|" + c + rest) == if c != "" then c else "m4a"
  {
    var s := a + "|" + c + rest;
    var p := (ch: char) => ch != '|';
    assert s == a + ("|" + c + rest);
    RunOfConcat(a, "|" + c + rest, p);
    assert s[|a| + 1..] == c + rest;
    RunOfConcat(c, rest, p);
    var parts := Split(s, '|');
    assert parts[1] == Split(c + rest, '|')[0];
    if rest == "" {
      assert c + rest == c;
    } else {
      assert (c + rest)[..|c|] == c;
    }
  }

  lemma AudioCodecWithoutBar(format: string)
    requires '|' !in format
    ensures AudioCodec(format) == "m4a"
  {
    RunAll(format, (ch: char) => ch != '|');
  }

  /** The `-f` selector: a video is joined with an audio format unless none
      is given or it is `none`. */
  function Selector(req: Request): string {
    if IsVideo(req) && Truthy(req.audioFormat) && req.audioFormat.value != "none" then
      req.format + "+" + req.audioFormat.value
    else req.format
  }

  function FormatArgs(req: Request): seq<string> {
    if IsVideo(req) then ["-f", Selector(req)]
    else ["-x", "--audio-format", AudioCodec(req.format), "-f", req.format]
  }

  /** `*<start>-<end>`, with an empty end when none is given. */
  function Section(req: Request): string
    requires Truthy(req.startTime)
  {
    "*" + req.startTime.value + "-" + (if Truthy(req.endTime) then req.endTime.value else "")
  }

  function SectionArgs(req: Request): seq<string> {
    if Truthy(req.startTime) then ["--download-sections", Section(req)] else []
  }

  function SubtitleArgs(req: Request): seq<string> {
    if req.subtitles then ["--write-sub", "--write-auto-sub"] else []
  }

  /** `buildYtDlpArgs`: format selection, time range, subtitles, then the
      output path, the two fixed options and the URL. */
  function BuildArgs(req: Request, url: string, outputPath: string): (args: seq<string>)
    ensures |args| >= 7
    ensures args[|args| - 1] == url
    ensures args[|args| - 5] == "-o" && args[|args| - 4] == outputPath
    ensures args[|args| - 3] == "--no-playlist" && args[|args| - 2] == "--no-check-certificate"
  {
    FormatArgs(req) + SectionArgs(req) + SubtitleArgs(req)
      + ["-o", outputPath, "--no-playlist", "--no-check-certificate", url]
  }

  /** What yt-dlp makes of a command line: the options it reads and the
      URLs left over. A later option overrides an earlier one. */
  datatype Invocation = Invocation(
    format: Option<string>,
    extractAudio: bool,
    audioFormat: Option<string>,
    sections: Option<string>,
    writeSubs: bool,
    writeAutoSubs: bool,
    output: Option<string>,
    noPlaylist: bool,
    noCheckCertificate: bool,
    urls: seq<string>)

  const Defaults := Invocation(None, false, None, None, false, false, None, false, false, [])

  /** The options of the command line that take a value. */
  predicate TakesValue(option: string) {
    option in {"-f", "--audio-format", "--download-sections", "-o"}
  }

  predicate IsFlag(option: string) {
    option in {"-x", "--write-sub", "--write-auto-sub", "--no-playlist", "--no-check-certificate"}
  }

  function WithValue(inv: Invocation, option: string, value: string): Invocation
    requires TakesValue(option)
  {
    if option == "-f" then inv.(format := Some(value))
    else if option == "--audio-format" then inv.(audioFormat := Some(value))
    else if option == "--download-sections" then inv.(sections := Some(value))
    else inv.(output := Some(value))
  }

  function WithFlag(inv: Invocation, option: string): Invocation
    requires IsFlag(option)
  {
    if option == "-x" then inv.(extractAudio := true)
    else if option == "--write-sub" then inv.(writeSubs := true)
    else if option == "--write-auto-sub" then inv.(writeAutoSubs := true)
    else if option == "--no-playlist" then inv.(noPlaylist := true)
    else inv.(noCheckCertificate := true)
  }

  /** Reads a command line from the front; an unknown option or an option
      missing its value is an error. */
  function Read(args: seq<string>, inv: Invocation): Option<Invocation>
    decreases |args|
  {
    if args == [] then Some(inv)
    else if TakesValue(args[0]) then
      if |args| < 2 then None else Read(args[2..], WithValue(inv, args[0], args[1]))
    else if IsFlag(args[0]) then Read(args[1..], WithFlag(inv, args[0]))
    else if StartsWith(args[0], "-") then None
    else Read(args[1..], inv.(urls := inv.urls + [args[0]]))
  }

  /** What the request asks yt-dlp to do. */
  function Meant(req: Request, url: string, outputPath: string): Invocation {
    Invocation(
      format := Some(Selector(req)),
      extractAudio := !IsVideo(req),
      audioFormat := if IsVideo(req) then None else Some(AudioCodec(req.format)),
      sections := if Truthy(req.startTime) then Some(Section(req)) else None,
      writeSubs := req.subtitles,
      writeAutoSubs := req.subtitles,
      output := Some(outputPath),
      noPlaylist := true,
      noCheckCertificate := true,
      urls := [url])
  }

  /** yt-dlp reads back exactly what the request asks for: the format
      selector, audio extraction and codec for a non-video, the time range
      iff a start is given, both subtitle options iff subtitles are asked
      for, the output path, and the URL as the one address to fetch. */
  lemma ArgsReadBack(req: Request, url: string, outputPath: string)
    requires !StartsWith(url, "-")
    ensures Read(BuildArgs(req, url, outputPath), Defaults) == Some(Meant(req, url, outputPath))
  {
    var tail := ["-o", outputPath, "--no-playlist", "--no-check-certificate", url];
    var i1 := ReadFormat(req, SectionArgs(req) + (SubtitleArgs(req) + tail), Defaults);
    var i2 := ReadSections(req, SubtitleArgs(req) + tail, i1);
    var i3 := ReadSubtitles(req, tail, i2);
    ReadTail(outputPath, url, i3);
    assert Defaults.urls + [url] == [url];
    assert BuildArgs(req, url, outputPath) == FormatArgs(req) + (SectionArgs(req) + (SubtitleArgs(req) + tail));
  }

  lemma ReadValue(option: string, value: string, rest: seq<string>, inv: Invocation)
    requires TakesValue(option)
    ensures Read([option, value] + rest, inv) == Read(rest, WithValue(inv, option, value))
  {
    assert ([option, value] + rest)[2..] == rest;
  }

  lemma ReadFlag(option: string, rest: seq<string>, inv: Invocation)
    requires IsFlag(option)
    ensures Read([option] + rest, inv) == Read(rest, WithFlag(inv, option))
  {
    assert ([option] + rest)[1..] == rest;
  }

  lemma ReadFormat(req: Request, rest: seq<string>, inv: Invocation) returns (inv': Invocation)
    ensures Read(FormatArgs(req) + rest, inv) == Read(rest, inv')
    ensures inv' == inv.(format := Some(Selector(req)),
                         extractAudio := inv.extractAudio || !IsVideo(req),
                         audioFormat := if IsVideo(req) then inv.audioFormat else Some(AudioCodec(req.format)))
  {
    if IsVideo(req) {
      ReadValue("-f", Selector(req), rest, inv);
      inv' := WithValue(inv, "-f", Selector(req));
    } else {
      var codec := AudioCodec(req.format);
      var a := inv.(extractAudio := true);
      var b := a.(audioFormat := Some(codec));
      ReadValue("-f", req.format, rest, b);
      ReadValue("--audio-format", codec, ["-f", req.format] + rest, a);
      ReadFlag("-x", ["--audio-format", codec] + (["-f", req.format] + rest), inv);
      assert FormatArgs(req) + rest == ["-x"] + (["--audio-format", codec] + (["-f", req.format] + rest));
      inv' := b.(format := Some(req.format));
    }
  }

  lemma ReadSections(req: Request, rest: seq<string>, inv: Invocation) returns (inv': Invocation)
    ensures Read(SectionArgs(req) + rest, inv) == Read(rest, inv')
    ensures inv' == if Truthy(req.startTime) then inv.(sections := Some(Section(req))) else inv
  {
    if Truthy(req.startTime) {
      ReadValue("--download-sections", Section(req), rest, inv);
      inv' := inv.(sections := Some(Section(req)));
    } else {
      assert SectionArgs(req) + rest == rest;
      inv' := inv;
    }
  }

  lemma ReadSubtitles(req: Request, rest: seq<string>, inv: Invocation) returns (inv': Invocation)
    ensures Read(SubtitleArgs(req) + rest, inv) == Read(rest, inv')
    ensures inv' == if req.subtitles then inv.(writeSubs := true, writeAutoSubs := true) else inv
  {
    if req.subtitles {
      var a := inv.(writeSubs := true);
      ReadFlag("--write-auto-sub", rest, a);
      ReadFlag("--write-sub", ["--write-auto-sub"] + rest, inv);
      assert SubtitleArgs(req) + rest == ["--write-sub"] + (["--write-auto-sub"] + rest);
      inv' := a.(writeAutoSubs := true);
    } else {
      assert SubtitleArgs(req) + rest == rest;
      inv' := inv;
    }
  }

  lemma ReadTail(outputPath: string, url: string, inv: Invocation)
    requires !StartsWith(url, "-")
    ensures Read(["-o", outputPath, "--no-playlist", "--no-check-certificate", url], inv)
      == Some(inv.(output := Some(outputPath), noPlaylist := true, noCheckCertificate := true, urls := inv.urls + [url]))
  {
    var a := inv.(output := Some(outputPath));
    var b := a.(noPlaylist := true);
    var c := b.(noCheckCertificate := true);
    assert Read([url], c) == Some(c.(urls := c.urls + [url])) by {
      assert !TakesValue(url) && !IsFlag(url) by {
        assert forall o | TakesValue(o) || IsFlag(o) :: StartsWith(o, "-");
      }
    }
    ReadFlag("--no-check-certificate", [url], b);
    ReadFlag("--no-playlist", ["--no-check-certificate", url], a);
    ReadValue("-o", outputPath, ["--no-playlist", "--no-check-certificate", url], inv);
  }

  /** An end time without a start time does not change the command line. */
  lemma EndTimeAloneIgnored(req: Request, url: string, outputPath: string, end: Option<string>)
    requires !Truthy(req.startTime)
    ensures BuildArgs(req.(endTime := end), url, outputPath) == BuildArgs(req, url, outputPath)
  {}

  /** `args.indexOf(x)`: the first position of `x`, or -1. */
  function IndexOf(args: seq<string>, x: string): (i: int)
    ensures -1 <= i < |args|
    ensures i >= 0 ==> args[i] == x && x !in args[..i]
    ensures i == -1 <==> x !in args
  {
    if args == [] then -1
    else if args[0] == x then 0
    else
      var i := IndexOf(args[1..], x);
      assert args == [args[0]] + args[1..];
      if i == -1 then -1 else
        assert args[..i + 1] == [args[0]] + args[1..][..i];
        i + 1
  }

  /** The directory the fallback scans: that of the argument after the
      first `-o`. */
  function OutputDir(args: seq<string>): string
    requires |args| > 0 && "-o" in args[..|args| - 1]
  {
    var i := IndexOf(args, "-o");
    assert i < |args| - 1 by {
      var j :| 0 <= j < |args| - 1 && args[..|args| - 1][j] == "-o";
      assert args[j] == "-o";
    }
    Dirname(args[i + 1])
  }

  /** With no value equal to `-o` before it, the fallback scans the
      directory of the output path. */
  lemma OutputDirOfArgs(req: Request, url: string, outputPath: string)
    requires "-o" !in FormatArgs(req) + SectionArgs(req) + SubtitleArgs(req)
    ensures var args := BuildArgs(req, url, outputPath);
      "-o" in args[..|args| - 1] && OutputDir(args) == Dirname(outputPath)
  {
    var args := BuildArgs(req, url, outputPath);
    var head := FormatArgs(req) + SectionArgs(req) + SubtitleArgs(req);
    assert args[|head|] == "-o";
    assert args[..|head|] == head;
    assert args[..|args| - 1][|head|] == "-o";
  }

  /** `files.find(f => f.startsWith('download_'))`. */
  function FirstDownload(files: seq<FileEntry>): (r: Option<string>)
    ensures r.Some? ==> exists i | 0 <= i < |files| ::
      (files[i].name == r.value && StartsWith(files[i].name, "download_")
       && forall j | 0 <= j < i :: !StartsWith(files[j].name, "download_"))
    ensures r.None? ==> forall j | 0 <= j < |files| :: !StartsWith(files[j].name, "download_")
  {
    if files == [] then None
    else if StartsWith(files[0].name, "download_") then Some(files[0].name)
    else
      var r := FirstDownload(files[1..]);
      assert forall j | 1 <= j < |files| :: files[j] == files[1..][j - 1];
      r
  }

  /** How `downloadVideo` settles: with a path, with an error message, or
      not at all when the fallback scan throws inside the exit handler. */
  datatype Outcome = Resolved(path: string) | Rejected(message: string) | Unsettled

  /** The last destination announced on standard output, each chunk matched
      as a whole. */
  function Announced(stdout: seq<string>): Option<string> {
    LastGiven(stdout, MatchChunkDestination)
  }

  /** `downloadVideo`: the outcome of a run of yt-dlp with `args`. */
  function DownloadVideo(args: seq<string>, run: Run, fs: Fs): Outcome
    requires |args| > 0 && "-o" in args[..|args| - 1]
  {
    match run
    case SpawnError(message) => Rejected(message)
    case Exit(code, stdout, _) =>
      if code != Some(0) then Rejected("yt-dlp failed with code " + CodeText(code))
      else
        var announced := Announced(stdout);
        if Truthy(announced) && Exists(fs, announced.value) then Resolved(announced.value)
        else
          var dir := OutputDir(args);
          match Listing(fs, dir)
          case None => Unsettled
          case Some(files) =>
            match FirstDownload(files)
            case Some(name) => Resolved(Join(dir, name))
            case None => Rejected("Downloaded file not found")
  }

  /** A nonzero or missing exit code always rejects; exit 0 resolves to the
      announced file when it exists, else to the first `download_` file of
      the output directory, else rejects. */
  lemma DownloadVideoOutcome(args: seq<string>, run: Run, fs: Fs)
    requires |args| > 0 && "-o" in args[..|args| - 1] && run.Exit?
    ensures run.code != Some(0) ==>
      DownloadVideo(args, run, fs) == Rejected("yt-dlp failed with code " + CodeText(run.code))
    ensures run.code == Some(0) && Truthy(Announced(run.stdout)) && Exists(fs, Announced(run.stdout).value) ==>
      DownloadVideo(args, run, fs) == Resolved(Announced(run.stdout).value)
    ensures DownloadVideo(args, run, fs).Resolved? ==>
      run.code == Some(0)
      && (|| (Truthy(Announced(run.stdout)) && DownloadVideo(args, run, fs).path == Announced(run.stdout).value
              && Exists(fs, Announced(run.stdout).value))
          || (OutputDir(args) in fs
              && exists f | f in fs[OutputDir(args)] ::
                   StartsWith(f.name, "download_") && DownloadVideo(args, run, fs).path == Join(OutputDir(args), f.name)))
    ensures DownloadVideo(args, run, fs) == Rejected("Downloaded file not found") ==>
      run.code == Some(0) && OutputDir(args) in fs
      && forall f | f in fs[OutputDir(args)] :: !StartsWith(f.name, "download_")
  {
    if run.code != Some(0) {
      assert ("yt-dlp failed with code " + CodeText(run.code))[0] != "Downloaded file not found"[0];
    }
    if run.code == Some(0) && !(Truthy(Announced(run.stdout)) && Exists(fs, Announced(run.stdout).value)) {
      var dir := OutputDir(args);
      if dir in fs {
        var files := fs[dir];
        if FirstDownload(files).Some? {
          var i :| 0 <= i < |files| && files[i].name == FirstDownload(files).value
            && StartsWith(files[i].name, "download_");
          assert files[i] in files;
        } else {
          forall f | f in files ensures !StartsWith(f.name, "download_") {
            var j :| 0 <= j < |files| && files[j] == f;
          }
        }
      }
    }
  }

  /** A destination line in the last chunk that announces one names the
      file that is served, when it exists. */
  lemma AnnouncedDestinationWins(args: seq<string>, earlier: seq<string>, p: string, rest: string,
                                 stderr: seq<string>, fs: Fs)
    requires |args| > 0 && "-o" in args[..|args| - 1]
    requires p != "" && forall c | c in p :: !IsLineTerminator(c)
    requires rest == "" || IsLineTerminator(rest[0])
    requires Exists(fs, p)
    ensures DownloadVideo(args, Exit(Some(0), earlier + ["[download] Destination: " + p + rest], stderr), fs)
      == Resolved(p)
  {
    var stdout := earlier + ["[download] Destination: " + p + rest];
    ChunkDestinationRoundTrip(p, rest);
    assert stdout[|stdout| - 1] == "[download] Destination: " + p + rest;
    assert Announced(stdout) == Some(p);
  }

  /** `POST /api/download`: no reply at all when the download never
      settles. */
  function Post(req: Request, timestamp: nat, tmp: string, run: Run, fs: Fs): Option<Answer<Served>> {
    if !Truthy(req.url) then Some(Refused(400, "URL is required"))
    else
      var name := OutputName(req, timestamp);
      var args := BuildArgs(req, req.url.value, Join(Join(tmp, "ytdownloader"), name));
      assert args[|args| - 5] == "-o";
      assert args[..|args| - 1][|args| - 5] == "-o";
      match DownloadVideo(args, run, fs)
      case Unsettled => None
      case Rejected(_) => Some(Refused(500, "Download failed"))
      case Resolved(path) =>
        if !Exists(fs, path) then Some(Refused(500, "Download failed"))
        else Some(Ok(Served(path, ContentType(req), Quoted(name))))
  }

  /** A request without a URL is refused before anything runs, whatever the
      run would have been; a served file carries the planned name and the
      type's content type, and every other failure is a 500. */
  lemma PostReplies(req: Request, timestamp: nat, tmp: string, run: Run, fs: Fs)
    ensures !Truthy(req.url) ==> Post(req, timestamp, tmp, run, fs) == Some(Refused(400, "URL is required"))
    ensures (Post(req, timestamp, tmp, run, fs).Some? && Post(req, timestamp, tmp, run, fs).value.Ok?) ==>
      var s := Post(req, timestamp, tmp, run, fs).value.value;
      && Exists(fs, s.path)
      && s.contentType == (if IsVideo(req) then "video/mp4" else "audio/mp4")
      && s.disposition == Quoted(OutputName(req, timestamp))
    ensures (Truthy(req.url) && Post(req, timestamp, tmp, run, fs).Some?
             && Post(req, timestamp, tmp, run, fs).value.Refused?) ==>
      Post(req, timestamp, tmp, run, fs).value == Refused(500, "Download failed")
  {}

  /** A spawn failure or a failed exit answers 500. */
  lemma FailedRunIs500(req: Request, timestamp: nat, tmp: string, run: Run, fs: Fs)
    requires Truthy(req.url)
    requires run.SpawnError? || run.code != Some(0)
    ensures Post(req, timestamp, tmp, run, fs) == Some(Refused(500, "Download failed"))
  {
    var name := OutputName(req, timestamp);
    var args := BuildArgs(req, req.url.value, Join(Join(tmp, "ytdownloader"), name));
    assert args[..|args| - 1][|args| - 5] == "-o";
    assert DownloadVideo(args, run, fs).Rejected?;
  }
}
