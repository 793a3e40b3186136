/** The part of the file system the routes look at: directory listings with
    modification times, as `readdir` and `stat` report them. */
module Files {
  import opened Wrappers
  import opened Paths

  /** A directory entry and its `mtimeMs`, in whole milliseconds. */
  datatype FileEntry = FileEntry(name: string, mtime: int)

  /** A snapshot of the directories that exist, each with its entries in
      `readdir` order. */
  type Fs = map<string, seq<FileEntry>>

  /** `readdir(dir)`: the listing, or None when the directory is missing. */
  function Listing(fs: Fs, dir: string): Option<seq<FileEntry>> {
    if dir in fs then Some(fs[dir]) else None
  }

  /** `fs.access(path)` succeeds: the directory part exists and lists the
      base name. */
  predicate Exists(fs: Fs, path: string) {
    var dir := Dirname(path);
    dir in fs && exists k | 0 <= k < |fs[dir]| :: fs[dir][k].name == Basename(path)
  }

  /** The message of the error `readdir` raises for a missing directory. */
  function ScandirMessage(dir: string): string {
    "ENOENT: no such file or directory, scandir '" + dir + "'"
  }

  /** Every listed name is a plain entry name. */
  predicate WellFormed(fs: Fs) {
    forall dir | dir in fs :: dir != "" && forall k | 0 <= k < |fs[dir]| :: IsEntryName(fs[dir][k].name)
  }

  /** A listed entry exists under its joined path. */
  lemma ListedExists(fs: Fs, dir: string, k: nat)
    requires WellFormed(fs) && dir in fs && k < |fs[dir]|
    ensures Exists(fs, Join(dir, fs[dir][k].name))
    ensures Basename(Join(dir, fs[dir][k].name)) == fs[dir][k].name
  {
    JoinSplits(dir, fs[dir][k].name);
  }
}
