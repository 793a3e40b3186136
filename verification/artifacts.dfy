/** Choosing the file to hand out from a download directory: the extension
    allow-lists, the newest-file rule, the fallback preference score, the
    first-`.mp4` rule of merged downloads and the name of the MP3 conversion. */
module Artifacts {
  import opened Wrappers
  import opened Text
  import opened Paths
  import opened Files
  import opened Sorting

  /** `/\.(e1|e2|…)$/i.test(name)`. Without the `u` flag the regular
      expression compares case-insensitively through upper-casing, which never
      maps a non-ASCII character to an ASCII one, so ASCII lower-casing gives
      the same answer for these all-ASCII extensions. */
  predicate HasExtension(name: string, exts: seq<string>) {
    exists i | 0 <= i < |exts| :: EndsWith(ToLowerAscii(name), "." + exts[i])
  }

  /** The media the audio download looks for. */
  const AudioMedia: seq<string> := ["mp3", "m4a", "webm", "opus", "wav", "ogg", "aac"]

  /** The candidates of the fallback discovery in the file route. */
  const ServableMedia: seq<string> := ["mp4", "webm", "m4a", "mp3", "wav", "opus"]

  /** The media the file route recovers from when the recorded path is gone. */
  const RecoverableMedia: seq<string> := ["mp4", "webm", "m4a", "mp3", "wav", "opus", "ogg", "aac"]

  /** `entries.filter(f => /\.(…)$/i.test(f))`: the entries with one of the
      extensions, in listing order. */
  function Matching(files: seq<FileEntry>, exts: seq<string>): (r: seq<FileEntry>)
    ensures forall f | f in r :: f in files && HasExtension(f.name, exts)
    ensures forall f | f in files && HasExtension(f.name, exts) :: f in r
    ensures |r| <= |files|
  {
    if files == [] then []
    else (if HasExtension(files[0].name, exts) then [files[0]] else []) + Matching(files[1..], exts)
  }

  function MTime(f: FileEntry): int { f.mtime }

  /** `sort((a, b) => b.mtimeMs - a.mtimeMs)[0]`: the first entry of the
      listing sorted newest first. */
  function Newest(files: seq<FileEntry>): FileEntry
    requires files != []
  {
    SortDesc(files, MTime)[0]
  }

  /** The newest entry is the first one, in listing order, whose modification
      time no other entry exceeds. */
  lemma NewestIsFirstLatest(files: seq<FileEntry>)
    requires files != []
    ensures exists i | 0 <= i < |files| ::
      (files[i] == Newest(files) && forall j | 0 <= j < i :: files[j].mtime < files[i].mtime)
    ensures forall f | f in files :: f.mtime <= Newest(files).mtime
  {
    SortDescFirst(files, MTime);
    var r := SortDesc(files, MTime);
    WithKeyFirst(files, MTime, r[0].mtime);
  }

  /** The head of `WithKey(s, key, k)` is the first element of `s` with key `k`. */
  lemma {:induction false} WithKeyFirst<T>(s: seq<T>, key: T -> int, k: int)
    requires WithKey(s, key, k) != []
    ensures exists i | 0 <= i < |s| ::
      (s[i] == WithKey(s, key, k)[0] && key(s[i]) == k && forall j | 0 <= j < i :: key(s[j]) != k)
  {
    if key(s[0]) != k {
      WithKeyFirst(s[1..], key, k);
      var i :| 0 <= i < |s[1..]| && s[1..][i] == WithKey(s[1..], key, k)[0]
        && key(s[1..][i]) == k && forall j | 0 <= j < i :: key(s[1..][j]) != k;
      assert s[i + 1] == s[1..][i];
      assert forall j | 0 < j < i + 1 :: s[j] == s[1..][j - 1];
    }
  }

  /** `files.filter(f => f.endsWith('.mp4'))[0]`: the first merged video, by
      a case-sensitive suffix. */
  function FirstMp4(files: seq<FileEntry>): (r: Option<string>)
    ensures r.Some? ==> exists i | 0 <= i < |files| ::
      (files[i].name == r.value && EndsWith(files[i].name, ".mp4")
       && forall j | 0 <= j < i :: !EndsWith(files[j].name, ".mp4"))
    ensures r.None? ==> forall j | 0 <= j < |files| :: !EndsWith(files[j].name, ".mp4")
  {
    if files == [] then None
    else if EndsWith(files[0].name, ".mp4") then Some(files[0].name)
    else
      var r := FirstMp4(files[1..]);
      assert forall j | 1 <= j < |files| :: files[j] == files[1..][j - 1];
      r
  }

  /** The fallback preference of a file name: a merged `.mp4` 4, an `.mp3` 3,
      a `video_` part 2, an `audio_` part 1, anything else 0. The prefixes are
      matched case-sensitively, the extensions not. */
  function Score(name: string): int {
    if HasExtension(name, ["mp4"]) && !StartsWith(name, "video_") then 4
    else if HasExtension(name, ["mp3"]) then 3
    else if StartsWith(name, "video_") then 2
    else if StartsWith(name, "audio_") then 1
    else 0
  }

  function CandidateScore(f: FileEntry): int { Score(f.name) }

  /** Fallback discovery as the file route writes it: the candidates sorted by
      preference; when the first two tie, the newest of those sharing the top
      preference, else the first. */
  function FallbackChoice(entries: seq<FileEntry>): Option<FileEntry> {
    var candidates := Matching(entries, ServableMedia);
    if candidates == [] then None
    else
      var sorted := SortDesc(candidates, CandidateScore);
      if |sorted| > 1 && CandidateScore(sorted[0]) == CandidateScore(sorted[1]) then
        Some(Newest(WithKey(sorted, CandidateScore, CandidateScore(sorted[0]))))
      else Some(sorted[0])
  }

  /** The greatest score among `files`. */
  function TopScore(files: seq<FileEntry>): (m: int)
    requires files != []
    ensures forall f | f in files :: CandidateScore(f) <= m
    ensures exists f | f in files :: CandidateScore(f) == m
  {
    if |files| == 1 then CandidateScore(files[0])
    else
      var m := TopScore(files[1..]);
      assert forall f | f in files :: f == files[0] || f in files[1..];
      if CandidateScore(files[0]) > m then CandidateScore(files[0]) else m
  }

  /** The fallback rule stated directly: among the candidates with the top
      score, the newest. */
  function FallbackReference(entries: seq<FileEntry>): Option<FileEntry> {
    var candidates := Matching(entries, ServableMedia);
    if candidates == [] then None
    else
      var best := WithKey(candidates, CandidateScore, TopScore(candidates));
      if best == [] then None else Some(Newest(best))
  }

  /** The sort-and-tie-break of the route picks what the direct rule picks. */
  lemma FallbackChoiceIsReference(entries: seq<FileEntry>)
    ensures FallbackChoice(entries) == FallbackReference(entries)
  {
    var candidates := Matching(entries, ServableMedia);
    if candidates != [] {
      var sorted := SortDesc(candidates, CandidateScore);
      var top := TopScore(candidates);
      SortedHeadIsTop(candidates);
      SortDescStable(candidates, CandidateScore, top);
      if !(|sorted| > 1 && CandidateScore(sorted[0]) == CandidateScore(sorted[1])) {
        SortDescSorted(candidates, CandidateScore);
        UniqueTop(sorted, CandidateScore);
        assert Newest([sorted[0]]) == sorted[0];
      }
    }
  }

  /** The head of the sorted candidates carries the top score. */
  lemma SortedHeadIsTop(candidates: seq<FileEntry>)
    requires candidates != []
    ensures CandidateScore(SortDesc(candidates, CandidateScore)[0]) == TopScore(candidates)
  {
    var sorted := SortDesc(candidates, CandidateScore);
    SortDescFirst(candidates, CandidateScore);
    assert sorted[0] in multiset(candidates);
  }

  /** When the second element of a sorted sequence ranks lower than the head,
      the head is alone with its key. */
  lemma UniqueTop<T>(sorted: seq<T>, key: T -> int)
    requires sorted != [] && SortedDesc(sorted, key)
    requires !(|sorted| > 1 && key(sorted[0]) == key(sorted[1]))
    ensures WithKey(sorted, key, key(sorted[0])) == [sorted[0]]
  {
    var top := key(sorted[0]);
    assert sorted == [sorted[0]] + sorted[1..];
    WithKeyAppend([sorted[0]], sorted[1..], key, top);
    WithKeyNone(sorted[1..], key, top);
    assert WithKey([sorted[0]], key, top) == [sorted[0]] by {
      assert [sorted[0]][1..] == [];
    }
  }

  /** The fallback picks a candidate of the top score and, among those, one no
      other is newer than; it finds nothing exactly when no entry is a
      candidate. */
  lemma FallbackIsBest(entries: seq<FileEntry>)
    ensures FallbackChoice(entries).None? <==> forall f | f in entries :: !HasExtension(f.name, ServableMedia)
    ensures FallbackChoice(entries).Some? ==>
      var c := FallbackChoice(entries).value;
      && c in entries && HasExtension(c.name, ServableMedia)
      && (forall f | f in entries && HasExtension(f.name, ServableMedia) :: Score(f.name) <= Score(c.name))
      && (forall f | f in entries && HasExtension(f.name, ServableMedia) && Score(f.name) == Score(c.name) :: f.mtime <= c.mtime)
  {
    FallbackChoiceIsReference(entries);
    var candidates := Matching(entries, ServableMedia);
    if candidates != [] {
      BestOfTop(candidates);
    }
  }

  /** The newest of the top-score candidates has the top score and no
      candidate of that score is newer. */
  lemma BestOfTop(candidates: seq<FileEntry>)
    requires candidates != []
    ensures var best := WithKey(candidates, CandidateScore, TopScore(candidates));
      && best != []
      && Newest(best) in candidates
      && CandidateScore(Newest(best)) == TopScore(candidates)
      && forall g | g in candidates && CandidateScore(g) == TopScore(candidates) :: g.mtime <= Newest(best).mtime
  {
    var top := TopScore(candidates);
    var best := WithKey(candidates, CandidateScore, top);
    var f :| f in candidates && CandidateScore(f) == top;
    WithKeyHas(candidates, CandidateScore, f);
    NewestIsFirstLatest(best);
    forall g | g in candidates && CandidateScore(g) == top ensures g.mtime <= Newest(best).mtime {
      WithKeyHas(candidates, CandidateScore, g);
    }
  }

  /** Every element is kept under its own key. */
  lemma {:induction false} WithKeyHas<T>(s: seq<T>, key: T -> int, x: T)
    requires x in s
    ensures x in WithKey(s, key, key(x))
  {
    if s[0] != x {
      WithKeyHas(s[1..], key, x);
    }
  }

  /** The missing-file recovery of the file route: the newest of the
      recoverable media of the directory. */
  function RecoverChoice(entries: seq<FileEntry>): (r: Option<FileEntry>)
    ensures r.Some? ==> r.value in entries && HasExtension(r.value.name, RecoverableMedia)
    ensures r.None? <==> forall f | f in entries :: !HasExtension(f.name, RecoverableMedia)
  {
    var media := Matching(entries, RecoverableMedia);
    if media == [] then None
    else
      NewestIsFirstLatest(media);
      Some(Newest(media))
  }

  /** The file the audio download settles on: the newest audio medium. */
  function AudioChoice(entries: seq<FileEntry>): (r: Option<FileEntry>)
    ensures r.Some? ==> r.value in entries && HasExtension(r.value.name, AudioMedia)
    ensures r.None? <==> forall f | f in entries :: !HasExtension(f.name, AudioMedia)
  {
    var media := Matching(entries, AudioMedia);
    if media == [] then None
    else
      NewestIsFirstLatest(media);
      Some(Newest(media))
  }

  /** The newest-file choices pick an entry no other medium of the same kind
      is newer than. */
  lemma ChoicesAreNewest(entries: seq<FileEntry>)
    ensures AudioChoice(entries).Some? ==> forall f | f in entries && HasExtension(f.name, AudioMedia) :: f.mtime <= AudioChoice(entries).value.mtime
    ensures RecoverChoice(entries).Some? ==> forall f | f in entries && HasExtension(f.name, RecoverableMedia) :: f.mtime <= RecoverChoice(entries).value.mtime
  {
    var audio := Matching(entries, AudioMedia);
    if audio != [] {
      NewestIsFirstLatest(audio);
    }
    var media := Matching(entries, RecoverableMedia);
    if media != [] {
      NewestIsFirstLatest(media);
    }
  }

  /** `convertToMp3`'s output path: the input's base name without its
      extension, with `.mp3`, in the output directory. */
  function Mp3Name(input: string, outputDir: string): string {
    Join(outputDir, Stem(input) + ".mp3")
  }

  /** The converted file sits in the output directory, keeps the input's
      stem and has the extension `.mp3`. */
  lemma Mp3NameShape(input: string, outputDir: string)
    requires outputDir != "" && Basename(input) != ""
    ensures Dirname(Mp3Name(input, outputDir)) == outputDir
    ensures Basename(Mp3Name(input, outputDir)) == Stem(input) + ".mp3"
    ensures Extname(Mp3Name(input, outputDir)) == ".mp3"
  {
    var stem := Stem(input);
    var name := stem + ".mp3";
    assert IsEntryName(name) by {
      assert '/' !in name;
    }
    assert Mp3Name(input, outputDir) == Join(outputDir, name);
    ExtnameOfJoin(outputDir, name);
    JoinSplits(outputDir, name);
    Mp3Extension(stem);
  }

  lemma Mp3Extension(stem: string)
    requires stem != "" && '/' !in stem
    ensures Extname(stem + ".mp3") == ".mp3"
  {
    var name := stem + ".mp3";
    assert name == (stem + ".") + "mp3";
    LastIndexSkip(stem + ".", "mp3", '.');
    NameIsBasename(name);
    assert LastIndex(stem + ".", '.') == |stem|;
    assert LastIndex(name, '.') == |stem|;
    assert name[|stem|..] == ".mp3";
  }
}
