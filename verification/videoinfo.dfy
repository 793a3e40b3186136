/** The format catalogue of `POST /api/video-info`: yt-dlp's JSON
    description of a video turned into the lists the front end offers. */
module VideoInfo {
  import opened Wrappers
  import opened Text
  import opened Jobs
  import opened Sorting
  import opened Progress
  import opened Workflow

  /** One entry of yt-dlp's `formats` array, with the fields the route
      reads; an absent field is None. */
  datatype Format = Format(
    formatId: string,
    ext: string,
    vcodec: Option<string>,
    acodec: Option<string>,
    height: Option<int>,
    fps: Option<real>,
    filesize: Option<int>,
    formatNote: Option<string>)

  /** The fields of the description the route reads. */
  datatype VideoData = VideoData(
    title: Option<string>,
    thumbnail: Option<string>,
    duration: Option<real>,
    uploader: Option<string>,
    viewCount: Option<int>,
    webpageUrl: Option<string>,
    extractorKey: Option<string>,
    formats: Option<seq<Format>>)

  datatype VideoEntry = VideoEntry(id: string, quality: string, ext: string, vcodec: string,
                                   filesize: Option<int>, selected: bool)

  datatype AudioEntry = AudioEntry(id: string, quality: string, ext: string, note: string)

  datatype Catalogue = Catalogue(videoFormats: seq<VideoEntry>, audioFormats: seq<AudioEntry>)

  datatype Info = Info(
    title: string,
    thumbnail: Option<string>,
    duration: real,
    uploader: string,
    viewCount: int,
    url: string,
    extractor: string,
    formats: Catalogue)

  /** A codec field that names a codec: present, non-empty, not `none`. */
  predicate NamesCodec(codec: Option<string>) { Truthy(codec) && codec.value != "none" }

  predicate HasHeight(f: Format) { f.height.Some? && f.height.value != 0 }

  /** A video stream: a video codec and a height. */
  predicate IsVideoFormat(f: Format) { NamesCodec(f.vcodec) && HasHeight(f) }

  /** An audio-only stream: an audio codec and no video codec. */
  predicate IsAudioFormat(f: Format) { NamesCodec(f.acodec) && !NamesCodec(f.vcodec) }

  /** No stream is offered both as a video and as an audio. */
  lemma ListsDisjoint(f: Format)
    ensures !(IsVideoFormat(f) && IsAudioFormat(f))
  {}

  /** `<height>p`, with `60` appended for a 60 fps stream. */
  function Quality(f: Format): string
    requires HasHeight(f)
  {
    IntToString(f.height.value) + "p" + (if f.fps == Some(60.0) then "60" else "")
  }

  function VideoEntryOf(f: Format): VideoEntry
    requires IsVideoFormat(f)
  {
    VideoEntry(f.formatId, Quality(f), f.ext, f.vcodec.value, f.filesize, f.height.value == 1080)
  }

  /** `format_note || 'Unknown quality'`. */
  function Note(f: Format): string {
    if Truthy(f.formatNote) then f.formatNote.value else "Unknown quality"
  }

  function AudioEntryOf(f: Format): AudioEntry {
    AudioEntry(f.formatId, Note(f), if f.ext == "webm" then "opus" else f.ext, Note(f))
  }

  /** The video streams in listing order. */
  function VideoEntries(formats: seq<Format>): (r: seq<VideoEntry>)
    ensures forall e | e in r :: exists f | f in formats && IsVideoFormat(f) :: e == VideoEntryOf(f)
    ensures forall f | f in formats && IsVideoFormat(f) :: VideoEntryOf(f) in r
  {
    if formats == [] then []
    else
      var rest := VideoEntries(formats[1..]);
      assert forall f | f in formats[1..] :: f in formats;
      assert forall f | f in formats :: f == formats[0] || f in formats[1..];
      (if IsVideoFormat(formats[0]) then [VideoEntryOf(formats[0])] else []) + rest
  }

  /** The audio-only streams in listing order. */
  function AudioEntries(formats: seq<Format>): (r: seq<AudioEntry>)
    ensures forall e | e in r :: exists f | f in formats && IsAudioFormat(f) :: e == AudioEntryOf(f)
    ensures forall f | f in formats && IsAudioFormat(f) :: AudioEntryOf(f) in r
  {
    if formats == [] then []
    else
      var rest := AudioEntries(formats[1..]);
      assert forall f | f in formats[1..] :: f in formats;
      assert forall f | f in formats :: f == formats[0] || f in formats[1..];
      (if IsAudioFormat(formats[0]) then [AudioEntryOf(formats[0])] else []) + rest
  }

  /** The comparator's key: `parseInt(quality)`. */
  function HeightKey(e: VideoEntry): int {
    match ParseInt(e.quality)
    case Some(h) => h
    case None => 0
  }

  function HeightOrder(): VideoEntry -> int { (e: VideoEntry) => HeightKey(e) }

  /** The catalogue of a description: the video list sorted by height. */
  function CatalogueOf(data: VideoData): Catalogue {
    match data.formats
    case None => Catalogue([], [])
    case Some(formats) => Catalogue(SortDesc(VideoEntries(formats), HeightOrder()), AudioEntries(formats))
  }

  /** The sort key of a video entry is the height of its stream. */
  lemma HeightKeyIsHeight(f: Format)
    requires IsVideoFormat(f)
    ensures HeightKey(VideoEntryOf(f)) == f.height.value
  {
    var suffix := "p" + (if f.fps == Some(60.0) then "60" else "");
    assert Quality(f) == IntToString(f.height.value) + suffix;
    ParseIntOfRendering(f.height.value, suffix);
  }

  /** A video entry is labelled with its height, `60` marks exactly the
      60 fps streams, and exactly the 1080-line streams are preselected. */
  lemma VideoEntryLabel(f: Format)
    requires IsVideoFormat(f)
    ensures var e := VideoEntryOf(f);
      && StartsWith(e.quality, IntToString(f.height.value) + "p")
      && (EndsWith(e.quality, "p60") <==> f.fps == Some(60.0))
      && (e.selected <==> f.height.value == 1080)
      && e.id == f.formatId && e.ext == f.ext && e.vcodec == f.vcodec.value
  {
    var e := VideoEntryOf(f);
    var h := IntToString(f.height.value);
    if f.fps != Some(60.0) {
      assert e.quality == h + "p";
      assert e.quality[|e.quality| - 1] == 'p';
    }
  }

  /** An audio entry renames `webm` to `opus` and keeps every other
      extension; without a note it reads `Unknown quality`. */
  lemma AudioEntryLabel(f: Format)
    ensures var e := AudioEntryOf(f);
      && (f.ext == "webm" ==> e.ext == "opus")
      && (f.ext != "webm" ==> e.ext == f.ext)
      && e.quality == e.note
      && (Truthy(f.formatNote) ==> e.note == f.formatNote.value)
      && (!Truthy(f.formatNote) ==> e.note == "Unknown quality")
  {}

  /** The video list holds exactly the video streams, ordered by height
      from the tallest, streams of equal height in listing order; the audio
      list holds exactly the audio-only streams. */
  lemma {:induction false} CatalogueShape(data: VideoData)
    ensures data.formats.None? ==> CatalogueOf(data) == Catalogue([], [])
    ensures data.formats.Some? ==>
      var formats := data.formats.value;
      var c := CatalogueOf(data);
      && multiset(c.videoFormats) == multiset(VideoEntries(formats))
      && SortedDesc(c.videoFormats, HeightOrder())
      && (forall h :: WithKey(c.videoFormats, HeightOrder(), h) == WithKey(VideoEntries(formats), HeightOrder(), h))
      && (forall f | f in formats && IsVideoFormat(f) :: VideoEntryOf(f) in c.videoFormats)
      && (forall e | e in c.videoFormats :: exists f | f in formats && IsVideoFormat(f) :: e == VideoEntryOf(f))
      && c.audioFormats == AudioEntries(formats)
  {
    if data.formats.Some? {
      var formats := data.formats.value;
      var v := VideoEntries(formats);
      var c := CatalogueOf(data);
      SortDescSorted(v, HeightOrder());
      forall h ensures WithKey(c.videoFormats, HeightOrder(), h) == WithKey(v, HeightOrder(), h) {
        SortDescStable(v, HeightOrder(), h);
      }
      forall e | e in c.videoFormats ensures e in v {
        assert e in multiset(c.videoFormats);
      }
      forall f | f in formats && IsVideoFormat(f) ensures VideoEntryOf(f) in c.videoFormats {
        assert VideoEntryOf(f) in multiset(v);
      }
    }
  }

  /** The sort puts the tallest stream first: every height in the list is
      the key of its entry. */
  lemma SortedByHeight(data: VideoData, i: int, j: int)
    requires data.formats.Some?
    requires 0 <= i < j < |CatalogueOf(data).videoFormats|
    ensures exists f, g | f in data.formats.value && g in data.formats.value && IsVideoFormat(f) && IsVideoFormat(g) ::
      && CatalogueOf(data).videoFormats[i] == VideoEntryOf(f)
      && CatalogueOf(data).videoFormats[j] == VideoEntryOf(g)
      && f.height.value >= g.height.value
  {
    var formats := data.formats.value;
    var v := VideoEntries(formats);
    var r := SortDesc(v, HeightOrder());
    assert CatalogueOf(data).videoFormats == r;
    assert HeightOrder()(r[i]) >= HeightOrder()(r[j]) by {
      SortDescSorted(v, HeightOrder());
    }
    assert r[i] in v && r[j] in v by {
      assert r[i] in multiset(r) && r[j] in multiset(r);
    }
    var f :| f in formats && IsVideoFormat(f) && r[i] == VideoEntryOf(f);
    var g :| g in formats && IsVideoFormat(g) && r[j] == VideoEntryOf(g);
    HeightKeyIsHeight(f);
    HeightKeyIsHeight(g);
  }

  /** The description with its defaults filled in. */
  function InfoOf(data: VideoData, url: string): Info {
    Info(
      title := if Truthy(data.title) then data.title.value else "Unknown Title",
      thumbnail := if Truthy(data.thumbnail) then data.thumbnail else None,
      duration := if data.duration.Some? && data.duration.value != 0.0 then data.duration.value else 0.0,
      uploader := if Truthy(data.uploader) then data.uploader.value else "Unknown",
      viewCount := if data.viewCount.Some? && data.viewCount.value != 0 then data.viewCount.value else 0,
      url := if Truthy(data.webpageUrl) then data.webpageUrl.value else url,
      extractor := if Truthy(data.extractorKey) then data.extractorKey.value else "Unknown",
      formats := CatalogueOf(data))
  }

  /** Every field the description lacks is shown with its default, and the
      title, uploader and extractor shown are never empty. */
  lemma InfoDefaults(data: VideoData, url: string)
    ensures var info := InfoOf(data, url);
      && (!Truthy(data.title) ==> info.title == "Unknown Title")
      && (!Truthy(data.thumbnail) ==> info.thumbnail.None?)
      && (data.duration.None? ==> info.duration == 0.0)
      && (!Truthy(data.uploader) ==> info.uploader == "Unknown")
      && (data.viewCount.None? ==> info.viewCount == 0)
      && (!Truthy(data.webpageUrl) ==> info.url == url)
      && (!Truthy(data.extractorKey) ==> info.extractor == "Unknown")
      && (data.formats.None? ==> info.formats == Catalogue([], []))
      && info.title != "" && info.uploader != "" && info.extractor != ""
      && (info.thumbnail.Some? ==> info.thumbnail.value != "")
      && (url != "" ==> info.url != "")
  {
    CatalogueShape(data);
  }

  /** What `JSON.parse` makes of the standard output. */
  datatype Parse = Parsed(data: VideoData) | Unparsable(message: string)

  datatype Outcome = Resolved(info: Info) | Rejected(message: string)

  /** `getVideoInfo`: a failed run rejects with its standard error, output
      that does not parse rejects, otherwise the description. */
  function GetVideoInfo(url: string, run: Run, parse: Parse): Outcome {
    match run
    case SpawnError(message) => Rejected("Failed to spawn yt-dlp: " + message)
    case Exit(code, _, stderr) =>
      if code != Some(0) then Rejected("yt-dlp failed: " + Concat(stderr))
      else
        match parse
        case Unparsable(message) => Rejected("Failed to parse video info: " + message)
        case Parsed(data) => Resolved(InfoOf(data, url))
  }

  /** `POST /api/video-info`. */
  function Post(url: Option<string>, run: Run, parse: Parse): Answer<Info> {
    if !Truthy(url) then Refused(400, "URL is required")
    else
      match GetVideoInfo(url.value, run, parse)
      case Rejected(_) => Refused(500, "Failed to fetch video information")
      case Resolved(info) => Ok(info)
  }

  /** A missing URL is refused, a failed run is a 500, and a description is
      answered only after a clean exit. */
  lemma PostReplies(url: Option<string>, run: Run, parse: Parse)
    ensures !Truthy(url) ==> Post(url, run, parse) == Refused(400, "URL is required")
    ensures Truthy(url) && (run.SpawnError? || run.code != Some(0) || parse.Unparsable?) ==>
      Post(url, run, parse) == Refused(500, "Failed to fetch video information")
    ensures Post(url, run, parse).Ok? <==> Truthy(url) && run.Exit? && run.code == Some(0) && parse.Parsed?
    ensures Post(url, run, parse).Ok? ==> Post(url, run, parse).value == InfoOf(parse.data, url.value)
  {}
}
