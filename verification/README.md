# web-downloader, modelled in Dafny

web-downloader is a Next.js front end around the `yt-dlp` command-line
downloader. The browser asks `POST /api/video-info` for the formats of a
video, starts a download with `POST /api/download-progress`, polls its job
with `GET /api/download-progress?id=…`, and collects the finished file with
`GET /api/download-file?id=…` (or `GET /api/save-file?id=…`). A one-shot
route, `POST /api/download`, runs yt-dlp and answers with the file in one
request. The download list of the page keeps one entry per download and
shows a coloured status for each.

This project models that core as pure Dafny functions over immutable data:

- `Jobs`: the job record, the shared registry keyed by download id, the
  start and poll handlers and the age sweep, which runs every ten minutes and
  removes jobs older than an hour.
- `Lines`: the regular expressions the progress route applies to yt-dlp's
  output (the progress line, the destination, already-downloaded and merger
  lines), written as explicit greedy searches with backtracking.
- `Size`, `Numbers`: `parseSize`, `parseFloat` of the captured digits and
  `Math.round`.
- `Progress`: what each handler does with each output line and each
  standard-error chunk.
- `Workflow`: `startDownload`, its dispatch on the request type and the
  close handlers of the four downloads.
- `Artifacts`, `Sorting`: which file of a download directory is handed out
  (first `.mp4`, newest audio medium, score-and-mtime fallback, recovery).
- `Sanitize`, `Rfc5987`: the ASCII fallback file name and the RFC 5987
  `filename*` encoding of the `Content-Disposition` header.
- `Serving`: `GET /api/download-file` and `GET /api/save-file`, with their
  guards, recovery of a vanished file and the delayed cleanup.
- `Direct`: `POST /api/download`, `buildYtDlpArgs` and `downloadVideo`.
- `VideoInfo`: the format catalogue of `POST /api/video-info`.
- `Client`: `addDownload`, `updateDownload`, `removeDownload` and the
  status colour and text of the download list.
- `Text`, `Paths`, `Files`, `Seqs`, `Wrappers`: string, POSIX path,
  directory-snapshot and sequence helpers.

Every process run, clock reading and directory listing is an input: a run
of yt-dlp is its exit code with its standard output and standard error as
sequences of chunks (or a spawn error); the time is a number; the file
system is a snapshot mapping each directory to its entries with their
modification times.

## Model

| member | source | states |
|---|---|---|
| Jobs.SubmitThenPoll | app/api/download-progress/route.js:48-119 | a start request without a URL is refused with 400 and changes nothing; otherwise it registers exactly one new job under an id made from the clock, in state `starting` at 0, not ready, without path or error, in `<tmp>/ytdownloader/<id>`, which the poll then returns, while polls of every other id answer as before |
| Jobs.IdReadsBack | app/api/download-progress/route.js:57-58 | an id made by rendering the clock in decimal parses back to that time |
| Jobs.Sweep | app/api/download-progress/route.js:975-988 | the sweep removes exactly the entries whose id is more than one hour old, keeps every other entry unchanged, and reports for removal the directories of exactly the removed entries |
| Jobs.SweepIdempotent | app/api/download-progress/route.js:975-988 | a second sweep at the same time removes nothing more |
| Jobs.StaleOfSubmitted | app/api/download-progress/route.js:977-980 | a job registered at time t is swept at `now` exactly when `now - t` exceeds one hour |
| Lines.Lit | app/api/download-progress/route.js:200 | a literal matches exactly when the text starts with it, and the rest is what follows it |
| Lines.Spaces | app/api/download-progress/route.js:200 | `\s+` matches exactly at white space and consumes the whole run |
| Lines.Word | app/api/download-progress/route.js:200 | `[^\s]+` matches exactly at a non-space and takes the whole token |
| Lines.Number | app/api/download-progress/route.js:200 | `\d+\.?\d*` takes a number the text starts with, empty exactly when the text does not start with a digit |
| Lines.Percent | app/api/download-progress/route.js:200 | `(\d+\.?\d*)%` splits the text into a number, the percent sign and the rest |
| Lines.Leftmost | app/api/download-progress/route.js:200 | an unanchored match is found at some position of the line, and no match means no position matches |
| Lines.ProgressRoundTrip | app/api/download-progress/route.js:200-207 | a progress line yt-dlp prints for a percentage, size, speed and ETA reads back as those four captures, whatever white space follows |
| Lines.DestinationRoundTrip | app/api/download-progress/route.js:216-219 | a destination line reads back as the path it announces, with the line terminator left out by `.+` and `trim` |
| Lines.AlreadyRoundTrip | app/api/download-progress/route.js:222-225 | an already-downloaded line reads back as the path it names, the greedy capture giving back exactly the marker text |
| Lines.MergerRoundTrip | app/api/download-progress/route.js:228-231 | a merger line reads back as the path between its quotes |
| Lines.ChunkDestinationRoundTrip | app/api/download/route.js:121-124 | the one-shot route reads back the path of a destination line |
| Lines.MatchDestination | app/api/download-progress/route.js:216-219 | a captured destination is trimmed |
| Lines.MatchAlready | app/api/download-progress/route.js:222-225 | a captured already-downloaded path is trimmed |
| Lines.MatchMerger | app/api/download-progress/route.js:228-231 | a captured merger path is trimmed |
| Lines.MatchProgress | app/api/download-progress/route.js:200 | the four captures of a progress match are a number, and three tokens without white space |
| Numbers.ParseDecimal | app/api/download-progress/route.js:203 | `parseFloat` of digits and dots is a number exactly when a digit starts the text or follows a leading dot |
| Numbers.ParseDecimalOfInteger | app/api/download-progress/route.js:203 | the decimal rendering of a whole number parses back to it |
| Numbers.ParseDecimalBounds | app/api/download-progress/route.js:203 | a parsed number lies between its integer part and the next integer |
| Numbers.Round | app/api/download-progress/route.js:203 | `Math.round` gives the integer within one half, halves rounded up |
| Size.ParseSizeOfShape | app/api/download-progress/route.js:951-972 | a whole number, optional white space and a unit parse as the number times the unit's multiplier |
| Size.ParseSizeOfParts | app/api/download-progress/route.js:964-968 | a number, white space and a unit parse as `parseFloat` of the number times the multiplier |
| Size.ParseSizeRejects | app/api/download-progress/route.js:964-971 | a size the pattern rejects counts as zero bytes |
| Size.SplitSizeOfShape | app/api/download-progress/route.js:964 | the pattern accepts every number, white space, letters string and splits it into number and unit |
| Size.SplitSizeShape | app/api/download-progress/route.js:964 | every string the pattern accepts is number, white space and letters |
| Size.UnitMultipliers | app/api/download-progress/route.js:954-962 | `B` is 1, `KB`/`KiB` 1024, `MB`/`MiB` 1024², `GB`/`GiB` 1024³, and any other unit 1 |
| Size.AsWrittenAgrees | app/api/download-progress/route.js:951-972 | the source's `parseSize` and the corrected one agree on every size whose unit is not an inherited property name |
| Size.InheritedUnitGivesNaN | app/api/download-progress/route.js:967-968 | the source's `parseSize("5toString")` is NaN, the corrected one gives 5 |
| Progress.ScaleBounds | app/api/download-progress/route.js:351-360 | a single-format video fills 0–50 and an audio 50–100 of the bar, and the scaling keeps the order of the percentages |
| Progress.OutputIsLastName | app/api/download-progress/route.js:197-232 | after all lines, the output file is the one named by the last line that names one, and the prior value when no line does |
| Progress.UnmatchedLineKeepsState | app/api/download-progress/route.js:197-232 | a line that no pattern and no marker matches changes nothing |
| Progress.ProgressLineSetsFields | app/api/download-progress/route.js:200-207 | a progress line sets the rounded percentage, the speed, the ETA and the parsed total size of the job; that size is the source's own `parseSize` reading whenever the unit is not named like an inherited object property |
| Progress.MergeMarkerSets95 | app/api/download-progress/route.js:210-213 | a merger line puts the merged download at 95 per cent with the merging note |
| Progress.AudioCompleteIffMarker | app/api/download-progress/route.js:617-620 | the audio download counts as complete exactly when some line carries `[download] 100%` or the already-downloaded text |
| Progress.AlreadyLineIsDone | app/api/download-progress/route.js:617-633 | every line the already-downloaded pattern matches also carries the completion marker |
| Progress.LastErrorChunk | app/api/download-progress/route.js:384-387 | the recorded chunk is one of the chunks and contains `ERROR:`, and there is none exactly when no chunk contains it |
| Progress.RecordedErrorIsLast | app/api/download-progress/route.js:384-387 | standard error sets the job's error to the last chunk containing `ERROR:` and touches no other field |
| Workflow.DispatchCases | app/api/download-progress/route.js:135-148 | the merged download runs exactly for `video+audio` with both format ids, audio for `audio`, video for `video`, and the best-quality download for everything else |
| Workflow.Start | app/api/download-progress/route.js:135-153 | starting a download changes the started job only |
| Workflow.DownloadSettles | app/api/download-progress/route.js:135-153 | every download ends ready to save or failed with a message, with its id and directory kept |
| Workflow.CompleteIsReady | app/api/download-progress/route.js:258-264 | the completion step with a path leaves the job completed, at 100, ready to save, named after the path's base name |
| Workflow.MergedSettles | app/api/download-progress/route.js:241-305 | the merged download's close handler always settles the job |
| Workflow.MergedArtifact | app/api/download-progress/route.js:248-291 | on exit 0 the merged download takes the first `.mp4` in listing order, else the announced file, else fails with `No merged file found after download` |
| Workflow.MergedFailureText | app/api/download-progress/route.js:296-302 | a failed exit reports `Video+Audio download failed:` with standard error, or `Unknown error` when it is empty |
| Workflow.AudioFile | app/api/download-progress/route.js:654-693 | the audio file search changes nothing but the progress note and never returns an empty path |
| Workflow.AudioSettles | app/api/download-progress/route.js:643-706 | the audio download's close handler always settles the job |
| Workflow.AudioArtifact | app/api/download-progress/route.js:646-691 | on exit 0 the audio download keeps the newest audio medium of the directory, converted to `.mp3` when it is not one and the conversion succeeds |
| Workflow.VideoSettles | app/api/download-progress/route.js:390-397 | the video download's close handler always settles the job |
| Workflow.VideoOutcome | app/api/download-progress/route.js:763-778 | the video download succeeds exactly on exit 0 with an announced file, which it keeps; otherwise the error names the exit code and the last `ERROR:` chunk |
| Workflow.BestSettles | app/api/download-progress/route.js:856-874 | the best-quality close handler always settles the job |
| Workflow.BestOutcome | app/api/download-progress/route.js:856-874 | the best-quality download succeeds exactly on exit 0 with an announced file; otherwise its error is the last `ERROR:` chunk or names the exit code |
| Workflow.ScanKeepsIdentity | app/api/download-progress/route.js:197-232 | reading the output never changes a job's id or directory |
| Workflow.ScanKeepsError | app/api/download-progress/route.js:197-232 | reading the output never changes a job's error |
| Artifacts.Matching | app/api/download-file/route.js:60-61 | the extension filter keeps exactly the entries with one of the extensions |
| Artifacts.FirstMp4 | app/api/download-progress/route.js:252-254 | the merged file is the first `.mp4` of the listing, and none means no entry ends in `.mp4` |
| Artifacts.NewestIsFirstLatest | app/api/download-progress/route.js:668-669 | sorting by descending mtime and taking the head yields the first entry of greatest mtime |
| Artifacts.AudioChoice | app/api/download-progress/route.js:654-669 | the chosen audio file is an audio medium of the directory, and there is none exactly when no entry is one |
| Artifacts.RecoverChoice | app/api/download-file/route.js:139-147 | the recovered file is a recoverable medium of the directory, and there is none exactly when no entry is one |
| Artifacts.ChoicesAreNewest | app/api/download-file/route.js:144-147 | no medium of the same kind is newer than the chosen one |
| Artifacts.FallbackChoiceIsReference | app/api/download-file/route.js:60-83 | sorting the candidates by score and breaking a tie by mtime picks the newest entry of the top score |
| Artifacts.FallbackIsBest | app/api/download-file/route.js:60-83 | the fallback finds nothing exactly when no entry is a servable medium; otherwise it picks a top-score candidate no other top-score candidate is newer than |
| Artifacts.Mp3NameShape | app/api/download-progress/route.js:718-719 | the converted file sits in the output directory and is named after the input's base name with `.mp3` |
| Sorting.SortDesc | app/api/download-file/route.js:70-71 | the sort is a permutation of its input |
| Sorting.SortDescSorted | app/api/download-file/route.js:70-71 | the sort orders by descending key |
| Sorting.SortDescStable | app/api/download-file/route.js:70-71 | the sort is stable: the elements of each key keep their order |
| Sanitize.SanitizeIsClean | app/api/download-file/route.js:10-19 | the fallback name is never empty, all ASCII, free of `<>:"/\|?*` and of two underscores in a row, and `download` for a missing name |
| Sanitize.SanitizeIdempotent | app/api/download-file/route.js:10-19 | sanitizing a sanitized name changes nothing |
| Sanitize.CleanIsFixed | app/api/download-file/route.js:11-17 | a clean name passes through the replacements unchanged |
| Sanitize.BarStepIrrelevant | app/api/download-file/route.js:12-13 | the fullwidth-bar replacement never changes the result, since the bar later becomes `_` either way |
| Sanitize.ReplaceRunsSingles | app/api/download-file/route.js:15 | collapsing runs leaves no two underscores in a row |
| Rfc5987.DecodeEncode | app/api/download-file/route.js:22-27 | percent-decoding the encoded name gives back the UTF-8 bytes of the name |
| Rfc5987.EncodeWellEncoded | app/api/download-file/route.js:22-27 | the encoded name holds only RFC 5987 attribute characters and `%` followed by two upper-case hex digits |
| Rfc5987.ReservedEscaped | app/api/download-file/route.js:23 | every character `encodeURIComponent` does not keep is written as its percent-encoded UTF-8 bytes |
| Rfc5987.EmittedKept | app/api/download-file/route.js:22-27 | letters, digits and `-_.!~` are kept as they are |
| Rfc5987.QuoteEscaped | app/api/download-file/route.js:24 | `'`, `(` and `)` are percent-encoded |
| Rfc5987.StarEscaped | app/api/download-file/route.js:25 | `*` is percent-encoded |
| Rfc5987.SpecialEscapedIn | app/api/download-file/route.js:22-25 | wherever `'`, `(`, `)` or `*` stands in a name, the encoding has `%27`, `%28`, `%29` or `%2A` in its place, between the encodings of its two sides |
| Rfc5987.Utf8RoundTrip | app/api/download-file/route.js:23 | the UTF-8 bytes of a character decode back to it and are well-formed |
| Serving.DownloadFileGuards | app/api/download-file/route.js:41-161 | the download route refuses in order: no id 400, unknown id with nothing to discover 404, no path 404, not ready 400, vanished file with no medium to recover 404; every refusal is 400 or 404 |
| Serving.ReadyJobServed | app/api/download-file/route.js:116-128 | a ready job whose file exists is served at its own path under its own name, and the registry is unchanged |
| Serving.RecoveryRelocates | app/api/download-file/route.js:130-161 | a vanished file is replaced by the newest recoverable medium of its directory, which is served, and only that job's path and name change |
| Serving.DiscoveredServed | app/api/download-file/route.js:51-107 | an unknown id is answered with the best candidate of its directory, and the registry is unchanged |
| Serving.ServedHeaders | app/api/download-file/route.js:173-229 | the content type follows the lower-cased extension, a nameless file is offered as `download_<id><ext>`, and the disposition carries the clean ASCII name and the well-encoded UTF-8 name |
| Serving.ContentTablesAgree | app/api/save-file/route.js:36-47 | the save route's content types are the download route's except `.wav` and `.opus`, which fall back to `application/octet-stream` |
| Serving.CleanupForgets | app/api/download-file/route.js:207-220 | after the delayed cleanup the job is gone whether or not the file could be removed, and every other job is kept |
| Serving.SaveFileGuards | app/api/save-file/route.js:11-66 | the save route refuses in order: no id 400, unknown 404, not ready 400, missing file 404; a save serves the job's file under its own name and flips only `readyForSave` and the note |
| Serving.SaveOnce | app/api/save-file/route.js:50-51 | saving twice in a row hits the ready guard the second time |
| Serving.ReadyJobSaves | app/api/save-file/route.js:20-29 | a ready job whose file exists can be saved |
| Direct.OutputName | app/api/download/route.js:28-31 | the output is `download_<timestamp>` with `.mp4` for a video and `.m4a` otherwise |
| Direct.OutputNameReadsBack | app/api/download/route.js:28-31 | the timestamp in the output name reads back as itself with `parseInt` |
| Direct.AudioCodec | app/api/download/route.js:82-86 | the codec after the bar is never empty, defaulting to `m4a` |
| Direct.AudioCodecOf | app/api/download/route.js:82-86 | a format with a bar names the codec between its first bar and the next, `m4a` when that field is empty |
| Direct.AudioCodecWithoutBar | app/api/download/route.js:82-86 | a format without a bar gets the codec `m4a` |
| Direct.BuildArgs | app/api/download/route.js:72-110 | the command line ends with `-o`, the output path, `--no-playlist`, `--no-check-certificate` and the URL |
| Direct.ArgsReadBack | app/api/download/route.js:72-110 | yt-dlp reads the command line back as exactly the format, time section, subtitle flags, output, playlist and certificate choices and URL the request asks for |
| Direct.EndTimeAloneIgnored | app/api/download/route.js:89-91 | an end time without a start time does not change the command line |
| Direct.IndexOf | app/api/download/route.js:138 | `indexOf` gives the first position of the value, and -1 exactly when it is absent |
| Direct.FirstDownload | app/api/download/route.js:140 | the fallback is the first entry starting with `download_`, and none means no entry does |
| Direct.DownloadVideoOutcome | app/api/download/route.js:112-156 | a failed exit always rejects; exit 0 resolves to an announced file that exists, else to the first `download_` entry of the output directory, else rejects with `Downloaded file not found` |
| Direct.AnnouncedDestinationWins | app/api/download/route.js:121-135 | on exit 0 a destination announced in the last chunk is the resolved path when it exists |
| Direct.PostReplies | app/api/download/route.js:7-70 | a request without URL is refused with 400; a success serves an existing file with the type's content type under `download_<timestamp>.<ext>`; every other refusal is 500 `Download failed` |
| Direct.FailedRunIs500 | app/api/download/route.js:46-69 | a spawn error or a failed exit answers 500 `Download failed` |
| VideoInfo.ListsDisjoint | app/api/video-info/route.js:62-84 | no format is listed both as a video and as an audio stream |
| VideoInfo.VideoEntries | app/api/video-info/route.js:62-78 | the video list holds exactly the streams with a video codec and a height |
| VideoInfo.AudioEntries | app/api/video-info/route.js:82-95 | the audio list holds exactly the streams with an audio codec and no video codec |
| VideoInfo.VideoEntryLabel | app/api/video-info/route.js:68-78 | a video entry is labelled with its height, `60` appended exactly for 60 fps, selected exactly at 1080p, and keeps the stream's id, extension and codec |
| VideoInfo.AudioEntryLabel | app/api/video-info/route.js:89-95 | an audio entry renames `webm` to `opus`, keeps other extensions, and defaults its note to `Unknown quality` |
| VideoInfo.CatalogueShape | app/api/video-info/route.js:55-104 | the catalogue's video list is a height-ordered, stable rearrangement of the video streams and the audio list the audio streams in order |
| VideoInfo.SortedByHeight | app/api/video-info/route.js:100-104 | earlier video entries come from streams at least as tall as later ones |
| VideoInfo.InfoDefaults | app/api/video-info/route.js:106-115 | every field the description lacks is shown with its default, and the title, uploader and extractor shown are never empty |
| VideoInfo.PostReplies | app/api/video-info/route.js:8-119 | a request without URL is refused with 400, a failed run or unparsable output is a 500, and a parsed description is answered with its defaults filled in |
| Client.AddDownloadAppends | app/components/VideoDownloader.js:84-94 | a new entry is appended after the untouched list, keeps the data's properties except status, progress and speed, and starts downloading at 0 under the returned id |
| Client.UpdateDownloadPointwise | app/components/VideoDownloader.js:97-103 | the entries with the id take the updates over their own properties, every other entry is left alone, and order and length are kept |
| Client.UpdateUnknownIsIdentity | app/components/VideoDownloader.js:97-103 | updating an id no entry has changes nothing |
| Client.RemoveDownloadMembers | app/components/VideoDownloader.js:106-108 | the list kept is exactly the entries without the id |
| Client.RemoveDownloadKeepsOrder | app/components/VideoDownloader.js:106-108 | removal keeps the relative order of the remaining entries |
| Client.RemoveDownloadCount | app/components/VideoDownloader.js:106-108 | exactly as many entries are dropped as carry the id |
| Client.RemoveDownloadIdempotent | app/components/VideoDownloader.js:106-108 | removing an id twice is removing it once |
| Client.StatusColorDistinguishes | app/components/DownloadList.js:4-15 | downloading, completed and error have three different colours and every other status is grey |
| Client.BarIffPercentage | app/components/DownloadList.js:17-61 | a running download shows the bar exactly when its text is a percentage, and `Preparing...` otherwise |
| Client.NewEntryPreparing | app/components/DownloadList.js:17-75 | an entry just added reads `Preparing...` in blue, with no bar and no speed |
| Client.ErrorText | app/components/DownloadList.js:24-25 | a failed entry shows its message, or `Download failed` without one |

## Left out

- Process spawning, event handlers and the ffmpeg set-up are not modelled: a run of yt-dlp or ffmpeg is an input, and whether the MP3 conversion succeeds is a boolean parameter.
- Timers and concurrency are not modelled: the `setInterval` sweep that fires every ten minutes is one call `Jobs.Sweep` at a given time, the 10-second cleanup timer of the download-file route is one call `Serving.Cleanup`, and interleavings of polls with running downloads are not considered.
- The save-file route's delayed `unlink` of the temporary file (a 5-second `setTimeout`, app/api/save-file/route.js:54-60) is not modelled: `Serving.SaveFile` leaves the file system as it was.
- The clock is a parameter; the id of a download is the decimal rendering of the time given.
- `app/api/save-file/route.js` line 4 imports the registry from a module that does not export it; the model gives the save route the same registry as the other routes.
- The `toFixed(1)` `size` labels of the video-info format entries (app/api/video-info/route.js:67, :87) are not modelled; floating-point formatting is outside the model.
- `JSON.parse` of the video description is taken as an input (parsed data or a parse error).
- `Direct.Request`: the `format` field is taken to be present, as the page always sends it.
- `Client.IsPositive`: a progress held as a string compares as not positive, and non-integer JavaScript numbers are not modelled, because the page only stores integer percentages.
- `Client.AddDownload`: the fresh `Date.now()` id is a parameter.
- The `mkdir` and the final `unlink` of the one-shot route are left out; they do not change the answer.
- `path.join` normalisation (`.`, `..`, repeated slashes) is not modelled: `Paths.Join` puts a single `/` between a directory and a plain entry name. `Paths.Basename` and `Paths.Dirname` also do not strip a trailing `/` as Node's `path.basename` and `path.dirname` do; the paths the routes pass them never end in one.
- Extensions are lower-cased with ASCII case mapping only (`Text.ToLowerAscii`), where `toLowerCase` also maps non-ASCII capitals (app/api/download-file/route.js:173, app/api/save-file/route.js:36). The content type cannot differ, since every extension it recognises is ASCII, but the default `download_<id><ext>` name keeps a non-ASCII capital the source would lower.
- Progress.ApplyFact: the progress handlers read the total size with the corrected `parseSize` (`Size.ParseSize`), so a unit named like an inherited object property (`toString`, `constructor`, ...) gives its number where the source, as written, gives NaN; the discrepancy is recorded under "## Findings".
- Progress.ProgressLineSetsFields: states the total size read with the corrected `parseSize`; it equals the as-written reading (`Size.ParseSizeAsWritten`) except for a unit named like an inherited object property, as recorded under "## Findings".
- Dead code is left out: `mergeVideoAndAudio` is never called and the first `downloadSimpleAudio` is commented out.
- `NextResponse` objects, the `Cache-Control` header and console logging are not modelled.
- The argument lists the progress route passes to yt-dlp are not modelled; the one-shot route's `buildYtDlpArgs` is.
- `Rfc5987.Encode`: the third replacement of app/api/download-file/route.js:26 rewrites `%7C`, `%60` and `%5E` to their upper-cased selves; `encodeURIComponent` already writes upper-case hex, so the step is the identity and the model leaves it out.
- Strings are sequences of Unicode scalar values, not UTF-16 code units; the sanitizer gives the same result for both, and the encoder never sees a lone surrogate.
- File-system errors other than a missing directory are not modelled.

## Findings

| source | as written | input that shows it | evidently intended | confidence | as-written member | corrected member |
|---|---|---|---|---|---|---|
| app/api/download-progress/route.js:967-968 | `units[unit] \|\| 1` looks the unit up in a plain object, which also finds the properties every object inherits, so a unit such as `toString` yields a function and the product is NaN | `parseSize("5toString")` | a unit outside the table multiplies by 1, giving 5 | not executed | Size.InheritedUnitGivesNaN | Size.UnitMultipliers |
