/** The two routes that hand a finished file to the browser: `download-file`
    (with fallback discovery of unknown ids, recovery of a vanished file and
    a delayed cleanup) and `save-file`. */
module Serving {
  import opened Wrappers
  import opened Text
  import opened Paths
  import opened Files
  import opened Jobs
  import opened Artifacts
  import opened Sanitize
  import opened Rfc5987

  /** A file handed out: its path, `Content-Type` and
      `Content-Disposition`. */
  datatype Served = Served(path: string, contentType: string, disposition: Disposition)

  /** The two `Content-Disposition` forms the routes send: the name in a
      sanitized ASCII form and in RFC 5987 form, or the name quoted as it
      is. */
  datatype Disposition = Encoded(name: string) | Quoted(name: string)

  /** The header value of a disposition. */
  function HeaderValue(d: Disposition): string {
    match d
    case Encoded(name) =>
      "attachment; filename=\"" + Sanitize.Sanitize(Some(name)) + "\"; filename*=UTF-8''" + Encode(name)
    case Quoted(name) => "attachment; filename=\"" + name + "\""
  }

  /** The `Content-Type` of `download-file` for a lower-cased extension. */
  function FileContentType(ext: string): string {
    if ext == ".mp4" then "video/mp4"
    else if ext == ".webm" then "video/webm"
    else if ext == ".mp3" then "audio/mpeg"
    else if ext == ".m4a" then "audio/mp4"
    else if ext == ".wav" then "audio/wav"
    else if ext == ".opus" then "audio/opus"
    else "application/octet-stream"
  }

  /** The `Content-Type` of `save-file`, a shorter table. */
  function SaveContentType(ext: string): string {
    if ext == ".mp4" then "video/mp4"
    else if ext == ".mp3" then "audio/mpeg"
    else if ext == ".webm" then "video/webm"
    else if ext == ".m4a" then "audio/mp4"
    else "application/octet-stream"
  }

  /** The save table is the download table without `.wav` and `.opus`. */
  lemma ContentTablesAgree(ext: string)
    ensures ext !in {".wav", ".opus"} ==> SaveContentType(ext) == FileContentType(ext)
    ensures ext in {".wav", ".opus"} ==> SaveContentType(ext) == "application/octet-stream" != FileContentType(ext)
  {}

  /** The part of a job the download route reads: the job itself, or the
      record fallback discovery reconstructs for an unknown id. */
  datatype View = View(tempFilePath: Option<string>, filename: string, readyForSave: bool)

  function ViewOf(job: Job): View {
    View(job.tempFilePath, job.filename, job.readyForSave)
  }

  /** Fallback discovery for an id the registry does not hold: the best
      candidate of `<tmp>/ytdownloader/<id>`, or nothing when the directory
      is missing or holds no candidate. */
  function Discover(id: string, tmp: string, fs: Fs): Option<View> {
    var dir := JobDir(tmp, id);
    match Listing(fs, dir)
    case None => None
    case Some(entries) =>
      match FallbackChoice(entries)
      case None => None
      case Some(f) => Some(View(Some(Join(dir, f.name)), f.name, true))
  }

  /** The served file with its headers; an empty file name defaults to
      `download_<id><ext>`. */
  function ServeView(id: string, path: string, filename: string): Served {
    var ext := ToLowerAscii(Extname(path));
    var name := if filename != "" then filename else "download_" + id + ext;
    Served(path, FileContentType(ext), Encoded(name))
  }

  /** The new path and name of a recovered job. */
  function Relocate(reg: Registry, id: string, path: string, name: string): Registry {
    if id in reg then reg[id := reg[id].(tempFilePath := Some(path), filename := name)] else reg
  }

  /** The job of an id, or the record discovered for an unknown one. */
  function Lookup(reg: Registry, key: string, tmp: string, fs: Fs): Option<View> {
    if key in reg then Some(ViewOf(reg[key])) else Discover(key, tmp, fs)
  }

  /** Relocation changes the path and name of one job and nothing else. */
  lemma RelocateOnly(reg: Registry, id: string, path: string, name: string)
    requires id in reg
    ensures var reg' := Relocate(reg, id, path, name);
      && reg'.Keys == reg.Keys
      && reg'[id] == reg[id].(tempFilePath := Some(path), filename := name)
      && forall other | other in reg && other != id :: reg'[other] == reg[other]
  {}

  /** `GET /api/download-file?id=…`: the answer and the registry after it.
      The registry changes only when a vanished file is recovered. */
  function DownloadFile(reg: Registry, id: Option<string>, tmp: string, fs: Fs): (Answer<Served>, Registry) {
    if !Truthy(id) then (Refused(400, "Download ID is required"), reg)
    else
      match Lookup(reg, id.value, tmp, fs)
      case None => (Refused(404, "Download not found"), reg)
      case Some(view) => Deliver(reg, id.value, view, fs)
  }

  /** The guards on the record found, then the file itself or its
      replacement. */
  function Deliver(reg: Registry, key: string, view: View, fs: Fs): (Answer<Served>, Registry) {
    if !Truthy(view.tempFilePath) then (Refused(404, "File not ready"), reg)
    else if !view.readyForSave then (Refused(400, "File not ready for saving"), reg)
    else
      var path := view.tempFilePath.value;
      if Exists(fs, path) then (Ok(ServeView(key, path, view.filename)), reg)
      else Recover(reg, key, path, fs)
  }

  /** A record found is handed to the delivery guards. */
  lemma FoundIsDelivered(reg: Registry, id: string, tmp: string, fs: Fs, view: View)
    requires id != "" && Lookup(reg, id, tmp, fs) == Some(view)
    ensures DownloadFile(reg, Some(id), tmp, fs) == Deliver(reg, id, view, fs)
  {}

  /** A ready record whose file exists is served as it is. */
  lemma PresentIsServed(reg: Registry, key: string, view: View, fs: Fs)
    requires Truthy(view.tempFilePath) && view.readyForSave && Exists(fs, view.tempFilePath.value)
    ensures Deliver(reg, key, view, fs) == (Ok(ServeView(key, view.tempFilePath.value, view.filename)), reg)
  {}

  /** A ready record whose file is gone goes to recovery. */
  lemma MissingIsRecovered(reg: Registry, key: string, view: View, fs: Fs)
    requires Truthy(view.tempFilePath) && view.readyForSave && !Exists(fs, view.tempFilePath.value)
    ensures Deliver(reg, key, view, fs) == Recover(reg, key, view.tempFilePath.value, fs)
  {}

  /** The vanished-file branch: the newest medium of the file's directory
      takes its place. */
  function Recover(reg: Registry, key: string, path: string, fs: Fs): (Answer<Served>, Registry) {
    var dir := Dirname(path);
    match Listing(fs, dir)
    case None => (Refused(404, "File not found"), reg)
    case Some(entries) =>
      match RecoverChoice(entries)
      case None => (Refused(404, "File not found"), reg)
      case Some(f) =>
        var moved := Join(dir, f.name);
        var reg' := Relocate(reg, key, moved, f.name);
        if !Exists(fs, moved) then (Refused(404, "File not found"), reg')
        else (Ok(ServeView(key, moved, f.name)), reg')
  }

  /** The guards answer in order: a missing id, an unknown id without a
      discoverable file, a job without a path, a job not ready, a vanished
      file with nothing to recover. */
  lemma DownloadFileGuards(reg: Registry, id: Option<string>, tmp: string, fs: Fs)
    ensures !Truthy(id) ==> DownloadFile(reg, id, tmp, fs).0 == Refused(400, "Download ID is required")
    ensures Truthy(id) && id.value !in reg && Discover(id.value, tmp, fs).None? ==>
      DownloadFile(reg, id, tmp, fs).0 == Refused(404, "Download not found")
    ensures Truthy(id) && id.value in reg && !Truthy(reg[id.value].tempFilePath) ==>
      DownloadFile(reg, id, tmp, fs).0 == Refused(404, "File not ready")
    ensures Truthy(id) && id.value in reg && Truthy(reg[id.value].tempFilePath) && !reg[id.value].readyForSave ==>
      DownloadFile(reg, id, tmp, fs).0 == Refused(400, "File not ready for saving")
    ensures (&& Truthy(id) && id.value in reg && Truthy(reg[id.value].tempFilePath) && reg[id.value].readyForSave
             && !Exists(fs, reg[id.value].tempFilePath.value)
             && forall f | f in Listing(fs, Dirname(reg[id.value].tempFilePath.value)).GetOr([]) ::
                  !HasExtension(f.name, RecoverableMedia)) ==>
      DownloadFile(reg, id, tmp, fs) == (Refused(404, "File not found"), reg)
    ensures DownloadFile(reg, id, tmp, fs).0.Refused? ==>
      DownloadFile(reg, id, tmp, fs).0.code in {400, 404}
  {
    if Truthy(id) {
      var found := Lookup(reg, id.value, tmp, fs);
      if found.Some? {
        FoundIsDelivered(reg, id.value, tmp, fs, found.value);
        DeliverGuards(reg, id.value, found.value, fs);
      }
    }
  }

  /** The guards on a record found, in order. */
  lemma DeliverGuards(reg: Registry, key: string, view: View, fs: Fs)
    ensures !Truthy(view.tempFilePath) ==> Deliver(reg, key, view, fs) == (Refused(404, "File not ready"), reg)
    ensures Truthy(view.tempFilePath) && !view.readyForSave ==>
      Deliver(reg, key, view, fs) == (Refused(400, "File not ready for saving"), reg)
    ensures (&& Truthy(view.tempFilePath) && view.readyForSave && !Exists(fs, view.tempFilePath.value)
             && forall f | f in Listing(fs, Dirname(view.tempFilePath.value)).GetOr([]) ::
                  !HasExtension(f.name, RecoverableMedia)) ==>
      Deliver(reg, key, view, fs) == (Refused(404, "File not found"), reg)
    ensures Deliver(reg, key, view, fs).0.Refused? ==> Deliver(reg, key, view, fs).0.code in {400, 404}
  {
    if Truthy(view.tempFilePath) && view.readyForSave && !Exists(fs, view.tempFilePath.value) {
      MissingIsRecovered(reg, key, view, fs);
      RecoverRefusals(reg, key, view.tempFilePath.value, fs);
    }
  }

  /** Recovery finds nothing in a directory without media, and refuses only
      with 404. */
  lemma RecoverRefusals(reg: Registry, key: string, path: string, fs: Fs)
    ensures (forall f | f in Listing(fs, Dirname(path)).GetOr([]) :: !HasExtension(f.name, RecoverableMedia)) ==>
      Recover(reg, key, path, fs) == (Refused(404, "File not found"), reg)
    ensures Recover(reg, key, path, fs).0.Refused? ==> Recover(reg, key, path, fs).0.code == 404
  {
    var dir := Dirname(path);
    if dir in fs {
      assert Listing(fs, dir) == Some(fs[dir]);
    }
  }

  /** A ready job whose file exists is served as it is: its own path, the
      content type of its extension, its own name in both header forms, and
      the registry is left alone. */
  lemma ReadyJobServed(reg: Registry, id: string, tmp: string, fs: Fs)
    requires id != "" && id in reg && IsReady(reg[id]) && Exists(fs, reg[id].tempFilePath.value)
    ensures var path := reg[id].tempFilePath.value;
      DownloadFile(reg, Some(id), tmp, fs) ==
        (Ok(ServeView(id, path, Basename(path))), reg)
  {
    var view := ViewOf(reg[id]);
    assert Lookup(reg, id, tmp, fs) == Some(view);
    FoundIsDelivered(reg, id, tmp, fs, view);
    PresentIsServed(reg, id, view, fs);
  }

  /** A vanished file is replaced by the newest recoverable medium of its
      directory, and the job records the new path and name; nothing else in
      the registry changes. */
  lemma RecoveryRelocates(reg: Registry, id: string, tmp: string, fs: Fs)
    requires WellFormed(fs)
    requires id != "" && id in reg && Truthy(reg[id].tempFilePath) && reg[id].readyForSave
    requires !Exists(fs, reg[id].tempFilePath.value)
    requires Dirname(reg[id].tempFilePath.value) in fs
    requires RecoverChoice(fs[Dirname(reg[id].tempFilePath.value)]).Some?
    ensures var dir := Dirname(reg[id].tempFilePath.value);
      var f := RecoverChoice(fs[dir]).value;
      var (answer, reg') := DownloadFile(reg, Some(id), tmp, fs);
      && answer == Ok(ServeView(id, Join(dir, f.name), f.name))
      && reg'.Keys == reg.Keys
      && reg'[id] == reg[id].(tempFilePath := Some(Join(dir, f.name)), filename := f.name)
      && (forall other | other in reg && other != id :: reg'[other] == reg[other])
      && (forall g | g in fs[dir] && HasExtension(g.name, RecoverableMedia) :: g.mtime <= f.mtime)
  {
    var dir := Dirname(reg[id].tempFilePath.value);
    var f := RecoverChoice(fs[dir]).value;
    ChoicesAreNewest(fs[dir]);
    var view := ViewOf(reg[id]);
    assert Lookup(reg, id, tmp, fs) == Some(view);
    FoundIsDelivered(reg, id, tmp, fs, view);
    MissingIsRecovered(reg, id, view, fs);
    RecoverServesChoice(reg, id, view.tempFilePath.value, fs);
    RelocateOnly(reg, id, Join(dir, f.name), f.name);
  }

  /** Recovery serves the newest recoverable medium of the directory and
      records it in the job. */
  lemma RecoverServesChoice(reg: Registry, key: string, path: string, fs: Fs)
    requires WellFormed(fs) && Dirname(path) in fs && RecoverChoice(fs[Dirname(path)]).Some?
    ensures var dir := Dirname(path); var f := RecoverChoice(fs[dir]).value;
      Recover(reg, key, path, fs) == (Ok(ServeView(key, Join(dir, f.name), f.name)), Relocate(reg, key, Join(dir, f.name), f.name))
  {
    var dir := Dirname(path);
    var f := RecoverChoice(fs[dir]).value;
    var moved := Join(dir, f.name);
    assert Exists(fs, moved) by {
      var k :| 0 <= k < |fs[dir]| && fs[dir][k] == f;
      ListedExists(fs, dir, k);
    }
    assert Listing(fs, dir) == Some(fs[dir]);
  }

  /** An unknown id is answered from its directory: the best candidate is
      served and the registry is left alone. */
  lemma DiscoveredServed(reg: Registry, id: string, tmp: string, fs: Fs)
    requires WellFormed(fs) && id != "" && id !in reg
    requires JobDir(tmp, id) in fs && FallbackChoice(fs[JobDir(tmp, id)]).Some?
    ensures var dir := JobDir(tmp, id); var f := FallbackChoice(fs[dir]).value;
      DownloadFile(reg, Some(id), tmp, fs) == (Ok(ServeView(id, Join(dir, f.name), f.name)), reg)
  {
    var dir := JobDir(tmp, id);
    var f := FallbackChoice(fs[dir]).value;
    assert Exists(fs, Join(dir, f.name)) by {
      FallbackIsBest(fs[dir]);
      var k :| 0 <= k < |fs[dir]| && fs[dir][k] == f;
      ListedExists(fs, dir, k);
    }
    var view := View(Some(Join(dir, f.name)), f.name, true);
    assert Lookup(reg, id, tmp, fs) == Some(view) by {
      assert Listing(fs, dir) == Some(fs[dir]);
    }
    FoundIsDelivered(reg, id, tmp, fs, view);
    PresentIsServed(reg, id, view, fs);
  }

  /** A nameless job is offered as `download_<id>` with its extension, and
      the header carries a clean ASCII name and the RFC 5987 form of the
      same name. */
  lemma ServedHeaders(id: string, path: string, filename: string)
    ensures var ext := ToLowerAscii(Extname(path));
      var name := if filename != "" then filename else "download_" + id + ext;
      var s := ServeView(id, path, filename);
      && s.contentType == FileContentType(ext)
      && s.disposition == Encoded(name)
      && HeaderValue(s.disposition) ==
           "attachment; filename=\"" + Sanitize.Sanitize(Some(name)) + "\"; filename*=UTF-8''" + Encode(name)
      && Clean(Sanitize.Sanitize(Some(name)))
      && WellEncoded(Encode(name))
  {
    var ext := ToLowerAscii(Extname(path));
    var name := if filename != "" then filename else "download_" + id + ext;
    SanitizeIsClean(Some(name));
    EncodeWellEncoded(name);
  }

  /** The cleanup the download route schedules ten seconds after serving:
      the file is removed if it can be, and the entry is deleted from the
      registry either way. */
  function Cleanup(reg: Registry, id: string, fs: Fs, path: string, removed: bool): (Registry, Fs) {
    var fs' := if removed then Unlink(fs, path) else fs;
    (reg - {id}, fs')
  }

  /** The directory listing without the file. */
  function Unlink(fs: Fs, path: string): Fs {
    var dir := Dirname(path);
    if dir in fs then fs[dir := Without(fs[dir], Basename(path))] else fs
  }

  function Without(entries: seq<FileEntry>, name: string): (r: seq<FileEntry>)
    ensures forall f | f in r :: f in entries && f.name != name
    ensures forall f | f in entries && f.name != name :: f in r
  {
    if entries == [] then []
    else (if entries[0].name == name then [] else [entries[0]]) + Without(entries[1..], name)
  }

  /** The entry is gone after cleanup whether or not the file could be
      removed, every other entry stays, and a removed file no longer
      exists. */
  lemma CleanupForgets(reg: Registry, id: string, fs: Fs, path: string, removed: bool)
    ensures var (reg', fs') := Cleanup(reg, id, fs, path, removed);
      && id !in reg'
      && (forall other | other in reg && other != id :: other in reg' && reg'[other] == reg[other])
      && (removed ==> !Exists(fs', path))
      && (!removed ==> fs' == fs)
  {
    if removed {
      UnlinkRemoves(fs, path);
    }
  }

  /** After an unlink the path no longer exists. */
  lemma UnlinkRemoves(fs: Fs, path: string)
    ensures !Exists(Unlink(fs, path), path)
  {
    var dir := Dirname(path);
    if dir in fs {
      var rest := Without(fs[dir], Basename(path));
      assert Unlink(fs, path)[dir] == rest;
      forall k | 0 <= k < |rest| ensures rest[k].name != Basename(path) {
        assert rest[k] in rest;
      }
    }
  }

  /** `GET /api/save-file?id=…`: serves the job's file under its own name
      and marks it as saved. */
  function SaveFile(reg: Registry, id: Option<string>, fs: Fs): (Answer<Served>, Registry) {
    if !Truthy(id) then (Refused(400, "Download ID is required"), reg)
    else if id.value !in reg then (Refused(404, "Download not found"), reg)
    else
      var job := reg[id.value];
      if !job.readyForSave || !Truthy(job.tempFilePath) then (Refused(400, "File not ready for saving"), reg)
      else if !Exists(fs, job.tempFilePath.value) then (Refused(404, "File not found"), reg)
      else
        var ext := ToLowerAscii(Extname(job.filename));
        var served := Served(job.tempFilePath.value, SaveContentType(ext), Quoted(job.filename));
        (Ok(served), reg[id.value := job.(readyForSave := false, currentFile := "File downloaded")])
  }

  /** The save guards in order, and what a successful save changes: only
      the job's ready flag and note. */
  lemma SaveFileGuards(reg: Registry, id: Option<string>, fs: Fs)
    ensures !Truthy(id) ==> SaveFile(reg, id, fs) == (Refused(400, "Download ID is required"), reg)
    ensures Truthy(id) && id.value !in reg ==> SaveFile(reg, id, fs) == (Refused(404, "Download not found"), reg)
    ensures Truthy(id) && id.value in reg && (!reg[id.value].readyForSave || !Truthy(reg[id.value].tempFilePath)) ==>
      SaveFile(reg, id, fs) == (Refused(400, "File not ready for saving"), reg)
    ensures (&& Truthy(id) && id.value in reg && reg[id.value].readyForSave && Truthy(reg[id.value].tempFilePath)
             && !Exists(fs, reg[id.value].tempFilePath.value)) ==>
      SaveFile(reg, id, fs) == (Refused(404, "File not found"), reg)
    ensures var (answer, reg') := SaveFile(reg, id, fs);
      answer.Ok? ==> && answer.value.path == reg[id.value].tempFilePath.value
                     && answer.value.disposition == Quoted(reg[id.value].filename)
                     && reg'.Keys == reg.Keys
                     && reg'[id.value] == reg[id.value].(readyForSave := false, currentFile := "File downloaded")
                     && forall other | other in reg && other != id.value :: reg'[other] == reg[other]
  {}

  /** A file is saved once: asking again right away hits the ready guard. */
  lemma SaveOnce(reg: Registry, id: Option<string>, fs: Fs)
    requires SaveFile(reg, id, fs).0.Ok?
    ensures SaveFile(SaveFile(reg, id, fs).1, id, fs) == (Refused(400, "File not ready for saving"), SaveFile(reg, id, fs).1)
  {}

  /** A job fresh from a download can be saved when its file exists. */
  lemma ReadyJobSaves(reg: Registry, id: string, fs: Fs)
    requires id != "" && id in reg && IsReady(reg[id]) && Exists(fs, reg[id].tempFilePath.value)
    ensures SaveFile(reg, Some(id), fs).0.Ok?
  {}
}
