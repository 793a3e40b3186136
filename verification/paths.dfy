/** POSIX path helpers in the shape the routes use them: `path.join` of a
    directory and an entry name, `path.basename`, `path.dirname` and
    `path.extname`. */
module Paths {
  import opened Text

  /** A directory entry name as `readdir` returns it. */
  predicate IsEntryName(n: string) { n != "" && '/' !in n }

  /** `s.lastIndexOf(c)`: the index of the last `c` of `s`, or -1 when there
      is none. */
  function LastIndex(s: string, c: char): (i: int)
    ensures -1 <= i < |s|
    ensures i >= 0 ==> s[i] == c
    ensures forall k | i < k < |s| :: s[k] != c
  {
    if |s| == 0 then -1
    else if s[|s| - 1] == c then |s| - 1
    else LastIndex(s[..|s| - 1], c)
  }

  /** `path.join(dir, name)` for a directory and one entry name. */
  function Join(dir: string, name: string): string {
    dir + "/" + name
  }

  /** `path.basename(p)`: what follows the last `/`. */
  function Basename(p: string): (b: string)
    ensures forall k | 0 <= k < |b| :: b[k] != '/'
    ensures |b| <= |p| && p[|p| - |b|..] == b
  {
    p[LastIndex(p, '/') + 1..]
  }

  /** `path.dirname(p)`: what precedes the last `/`; `.` without one and `/`
      for a name directly under the root. */
  function Dirname(p: string): string {
    var i := LastIndex(p, '/');
    if i < 0 then "." else if i == 0 then "/" else p[..i]
  }

  /** `path.extname(p)`: from the last `.` of the base name to its end; empty
      when the base name has no dot, starts with its only dot or is `..`. */
  function Extname(p: string): (e: string)
    ensures EndsWith(Basename(p), e)
    ensures e == "" || e[0] == '.'
  {
    var b := Basename(p);
    var d := LastIndex(b, '.');
    if d <= 0 || b == ".." then "" else b[d..]
  }

  /** `path.basename(p, path.extname(p))`: the base name without its extension. */
  function Stem(p: string): (s: string)
    ensures s + Extname(p) == Basename(p)
    ensures Basename(p) != "" ==> s != ""
    ensures '/' !in s
  {
    var b := Basename(p);
    b[..|b| - |Extname(p)|]
  }

  /** Joining a directory and an entry name can be undone by `basename` and
      `dirname`. */
  lemma JoinSplits(dir: string, name: string)
    requires dir != "" && IsEntryName(name)
    ensures Basename(Join(dir, name)) == name
    ensures Dirname(Join(dir, name)) == dir
  {
    var p := Join(dir, name);
    assert p[|dir|] == '/';
    assert forall k | |dir| < k < |p| :: p[k] == name[k - |dir| - 1];
    assert LastIndex(p, '/') == |dir|;
    assert p[|dir| + 1..] == name;
    assert p[..|dir|] == dir;
  }

  /** The extension of a joined path is the extension of the entry name. */
  lemma ExtnameOfJoin(dir: string, name: string)
    requires dir != "" && IsEntryName(name)
    ensures Extname(Join(dir, name)) == Extname(name)
    ensures Basename(name) == name
  {
    JoinSplits(dir, name);
    assert LastIndex(name, '/') == -1;
  }

  /** Characters other than `c` appended to a string do not move its last `c`. */
  lemma {:induction false} LastIndexSkip(s: string, t: string, c: char)
    requires c !in t
    ensures LastIndex(s + t, c) == LastIndex(s, c)
    decreases |t|
  {
    if t != "" {
      var u := t[..|t| - 1];
      assert (s + t)[|s + t| - 1] == t[|t| - 1];
      assert t[|t| - 1] in t;
      assert (s + t)[..|s + t| - 1] == s + u;
      assert forall c | c in u :: c in t;
      LastIndexSkip(s, u, c);
    } else {
      assert s + t == s;
    }
  }

  /** A string without `/` is its own base name. */
  lemma NameIsBasename(s: string)
    requires '/' !in s
    ensures LastIndex(s, '/') == -1 && Basename(s) == s
  {}
}
