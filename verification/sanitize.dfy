/** `sanitizeFilename`: the ASCII fallback file name of the
    `Content-Disposition` header, built by six replacements in a row. */
module Sanitize {
  import opened Wrappers
  import opened Text

  /** The characters the header cannot carry in a quoted file name. */
  const Forbidden: string := "<>:\"/\\|?*"

  /** `.replace(/｜/g, '|')`: the fullwidth vertical bar U+FF5C becomes `|`. */
  function BarStep(c: char): string {
    if c as int == 0xFF5C then "|" else [c]
  }

  /** `.replace(/[^\x00-\x7F]/g, '_')`. JavaScript strings are UTF-16, so a
      character outside the Basic Multilingual Plane is two code units and
      becomes two underscores. */
  function AsciiStep(c: char): string {
    if IsAscii(c) then [c] else if c as int > 0xFFFF then "__" else "_"
  }

  /** `.replace(/[<>:"/\\|?*]/g, '_')`. */
  function ForbiddenStep(c: char): string {
    if c in Forbidden then "_" else [c]
  }

  predicate IsUnderscore(c: char) { c == '_' }

  /** `.replace(/p+/g, r)` for a character class `p`: each maximal run
      becomes the single character `r`. */
  function ReplaceRuns(s: string, p: char -> bool, r: char): string
    decreases |s|
  {
    if s == [] then []
    else if p(s[0]) then [r] + ReplaceRuns(s[Run(s, 0, p)..], p, r)
    else [s[0]] + ReplaceRuns(s[1..], p, r)
  }

  /** `.replace(/^_|_$/g, '')`: one underscore off the front and one off the
      back. */
  function Strip(s: string): string {
    DropLast(DropFirst(s))
  }

  function DropFirst(s: string): string {
    if s != [] && s[0] == '_' then s[1..] else s
  }

  function DropLast(s: string): string {
    if s != [] && s[|s| - 1] == '_' then s[..|s| - 1] else s
  }

  /** `sanitizeFilename(filename)`; an empty result falls back to
      `download`. */
  function Sanitize(name: Option<string>): string {
    if !Truthy(name) then "download"
    else
      var t := Pipeline(name.value);
      if t == "" then "download" else t
  }

  /** The six replacements. */
  function Pipeline(s: string): string {
    var a := MapChars(s, BarStep);
    var b := MapChars(a, AsciiStep);
    var c := MapChars(b, ForbiddenStep);
    var d := ReplaceRuns(c, IsSpace, '_');
    var e := ReplaceRuns(d, IsUnderscore, '_');
    Strip(e)
  }

  /** A character that may stand in the fallback name. */
  predicate IsSafe(c: char) {
    IsAscii(c) && c !in Forbidden && !IsSpace(c)
  }

  /** No two underscores in a row. */
  predicate NoDoubleUnderscore(t: string) {
    forall k | 0 <= k < |t| - 1 :: !(t[k] == '_' && t[k + 1] == '_')
  }

  /** No two characters of the class `p` in a row. */
  predicate NoAdjacent(t: string, p: char -> bool) {
    forall k | 0 <= k < |t| - 1 :: !(p(t[k]) && p(t[k + 1]))
  }

  /** What the fallback name promises: non-empty, ASCII, none of `<>:"/\|?*`,
      no white space, no `__`, and no `_` at either end. */
  predicate Clean(t: string) {
    && t != ""
    && AllOf(t, IsSafe)
    && NoDoubleUnderscore(t)
    && t[0] != '_' && t[|t| - 1] != '_'
  }

  /** Every name sanitizes to a clean one. */
  lemma SanitizeIsClean(name: Option<string>)
    ensures Clean(Sanitize(name))
    ensures !Truthy(name) ==> Sanitize(name) == "download"
  {
    assert Clean("download") by {
      assert "download"[0] == 'd';
    }
    if Truthy(name) {
      PipelineClean(name.value);
    }
  }

  /** The pipeline's output is empty or clean. */
  lemma PipelineClean(s: string)
    ensures var t := Pipeline(s); t == "" || Clean(t)
  {
    var a := MapChars(s, BarStep);
    var b := MapChars(a, AsciiStep);
    var c := MapChars(b, ForbiddenStep);
    var d := ReplaceRuns(c, IsSpace, '_');
    var e := ReplaceRuns(d, IsUnderscore, '_');
    MapCharsAll(a, AsciiStep, IsAscii);
    forall ch | ch in b ensures AllOf(ForbiddenStep(ch), IsSafeOrSpace) {
      var k :| 0 <= k < |b| && b[k] == ch;
      assert IsAscii(b[k]);
    }
    MapCharsAll(b, ForbiddenStep, IsSafeOrSpace);
    ReplaceRunsChars(c, IsSpace, '_', IsSafeOrSpace);
    ReplaceRunsRemoves(c, IsSpace, '_');
    assert AllOf(d, IsSafe);
    ReplaceRunsChars(d, IsUnderscore, '_', IsSafe);
    ReplaceRunsSingles(d, IsUnderscore, '_');
    StripClean(e);
  }

  /** `IsSafe` but for white space: what the first three steps leave. */
  predicate IsSafeOrSpace(c: char) {
    IsAscii(c) && c !in Forbidden
  }

  /** Run replacement only adds `r`. */
  lemma {:induction false} ReplaceRunsChars(s: string, p: char -> bool, r: char, q: char -> bool)
    requires AllOf(s, q) && q(r)
    ensures AllOf(ReplaceRuns(s, p, r), q)
    decreases |s|
  {
    if s != [] {
      var n := if p(s[0]) then Run(s, 0, p) else 1;
      var rest := s[n..];
      assert forall k | 0 <= k < |rest| :: rest[k] == s[k + n];
      ReplaceRunsChars(rest, p, r, q);
      var h := if p(s[0]) then [r] else [s[0]];
      var t := ReplaceRuns(rest, p, r);
      assert ReplaceRuns(s, p, r) == h + t;
      assert forall k | 1 <= k < |h + t| :: (h + t)[k] == t[k - 1];
    }
  }

  /** No character of the class survives unless it is the replacement. */
  lemma {:induction false} ReplaceRunsRemoves(s: string, p: char -> bool, r: char)
    requires !p(r)
    ensures AllOf(ReplaceRuns(s, p, r), c => !p(c))
    decreases |s|
  {
    if s != [] {
      var n := if p(s[0]) then Run(s, 0, p) else 1;
      ReplaceRunsRemoves(s[n..], p, r);
      var h := if p(s[0]) then [r] else [s[0]];
      var t := ReplaceRuns(s[n..], p, r);
      assert ReplaceRuns(s, p, r) == h + t;
      assert forall k | 1 <= k < |h + t| :: (h + t)[k] == t[k - 1];
    }
  }

  /** The result starts with the replacement exactly when `s` starts with the
      class. */
  lemma ReplaceRunsHead(s: string, p: char -> bool, r: char)
    requires s != [] && p(r)
    ensures ReplaceRuns(s, p, r) != [] && (p(ReplaceRuns(s, p, r)[0]) <==> p(s[0]))
  {}

  /** Run replacement with a member of the class leaves no two class
      characters in a row. */
  lemma {:induction false} ReplaceRunsSingles(s: string, p: char -> bool, r: char)
    requires p(r)
    ensures NoAdjacent(ReplaceRuns(s, p, r), p)
    decreases |s|
  {
    if s != [] {
      var n := if p(s[0]) then Run(s, 0, p) else 1;
      var rest := s[n..];
      ReplaceRunsSingles(rest, p, r);
      var h := if p(s[0]) then [r] else [s[0]];
      var t := ReplaceRuns(rest, p, r);
      assert ReplaceRuns(s, p, r) == h + t;
      if p(s[0]) && rest != [] {
        assert rest[0] == s[n];
        ReplaceRunsHead(rest, p, r);
      }
      assert forall k | 1 <= k < |h + t| :: (h + t)[k] == t[k - 1];
    }
  }

  /** Taking an underscore off each end of a string without `__` leaves
      none at either end. */
  lemma StripClean(e: string)
    requires AllOf(e, IsSafe) && NoAdjacent(e, IsUnderscore)
    ensures var t := Strip(e); t == "" || Clean(t)
  {
    var a := DropFirst(e);
    if e != [] && e[0] == '_' {
      assert forall k | 0 <= k < |a| :: a[k] == e[k + 1];
      if a != [] {
        NoAdjacentAt(e, IsUnderscore, 0);
      }
    }
    DropLastClean(a);
  }

  lemma DropLastClean(a: string)
    requires AllOf(a, IsSafe) && NoAdjacent(a, IsUnderscore)
    requires a != [] ==> a[0] != '_'
    ensures var t := DropLast(a); t == "" || Clean(t)
  {
    var t := DropLast(a);
    assert forall k | 0 <= k < |t| :: t[k] == a[k];
    if |t| == |a| - 1 && t != [] {
      NoAdjacentAt(a, IsUnderscore, |t| - 1);
    }
  }

  lemma NoAdjacentAt(t: string, p: char -> bool, k: nat)
    requires NoAdjacent(t, p) && k < |t| - 1
    ensures !(p(t[k]) && p(t[k + 1]))
  {}

  /** A clean name passes through the pipeline unchanged. */
  lemma CleanIsFixed(t: string)
    requires Clean(t)
    ensures Pipeline(t) == t
  {
    forall c | c in t ensures BarStep(c) == [c] && AsciiStep(c) == [c] && ForbiddenStep(c) == [c] {
      var k :| 0 <= k < |t| && t[k] == c;
      assert IsSafe(t[k]);
    }
    MapCharsKeeps(t, BarStep);
    MapCharsKeeps(t, AsciiStep);
    MapCharsKeeps(t, ForbiddenStep);
    ReplaceRunsNone(t, IsSpace, '_');
    ReplaceRunsSingle(t);
  }

  /** Run replacement of a class absent from `s` changes nothing. */
  lemma {:induction false} ReplaceRunsNone(s: string, p: char -> bool, r: char)
    requires AllOf(s, c => !p(c))
    ensures ReplaceRuns(s, p, r) == s
    decreases |s|
  {
    if s != [] {
      assert AllOf(s[1..], c => !p(c));
      ReplaceRunsNone(s[1..], p, r);
      assert s == [s[0]] + s[1..];
    }
  }

  /** Collapsing underscore runs changes nothing when there is no `__`. */
  lemma {:induction false} ReplaceRunsSingle(s: string)
    requires NoDoubleUnderscore(s)
    ensures ReplaceRuns(s, IsUnderscore, '_') == s
    decreases |s|
  {
    if s != [] {
      assert NoDoubleUnderscore(s[1..]);
      ReplaceRunsSingle(s[1..]);
      if s[0] == '_' {
        assert Run(s, 0, IsUnderscore) == 1 by {
          assert Run(s, 1, IsUnderscore) == 0;
        }
      }
      assert s == [s[0]] + s[1..];
    }
  }

  /** Sanitizing twice is sanitizing once. */
  lemma SanitizeIdempotent(name: Option<string>)
    ensures Sanitize(Some(Sanitize(name))) == Sanitize(name)
  {
    SanitizeIsClean(name);
    CleanIsFixed(Sanitize(name));
  }

  /** The fullwidth-bar step never changes the result: the bar would become
      `_` as any other non-ASCII character does, and `|` becomes `_` too. */
  lemma BarStepIrrelevant(s: string)
    ensures Pipeline(s) == WithoutBarStep(s)
  {
    BarFirstSteps(s);
  }

  /** The pipeline without its first replacement. */
  function WithoutBarStep(s: string): string {
    var b := MapChars(s, AsciiStep);
    var c := MapChars(b, ForbiddenStep);
    Strip(ReplaceRuns(ReplaceRuns(c, IsSpace, '_'), IsUnderscore, '_'))
  }

  lemma {:induction false} BarFirstSteps(s: string)
    ensures MapChars(MapChars(MapChars(s, BarStep), AsciiStep), ForbiddenStep)
         == MapChars(MapChars(s, AsciiStep), ForbiddenStep)
    decreases |s|
  {
    if s != [] {
      BarFirstSteps(s[1..]);
      var c := s[0];
      var a1 := MapChars(s[1..], BarStep);
      assert MapChars(s, BarStep) == BarStep(c) + a1;
      MapCharsConcat(BarStep(c), a1, AsciiStep);
      MapCharsConcat(MapChars(BarStep(c), AsciiStep), MapChars(a1, AsciiStep), ForbiddenStep);
      MapCharsConcat(AsciiStep(c), MapChars(s[1..], AsciiStep), ForbiddenStep);
      assert MapChars(MapChars(BarStep(c), AsciiStep), ForbiddenStep) == MapChars(AsciiStep(c), ForbiddenStep) by {
        OneChar(c);
      }
    }
  }

  /** The two routes a single character can take agree. */
  lemma OneChar(c: char)
    ensures MapChars(MapChars(BarStep(c), AsciiStep), ForbiddenStep) == MapChars(AsciiStep(c), ForbiddenStep)
  {
    assert [c][1..] == [];
    if c as int == 0xFF5C {
      assert "|"[1..] == [];
      assert "_"[1..] == [];
      assert '|' in Forbidden;
    } else if IsAscii(c) {
    } else if c as int > 0xFFFF {
      assert "__"[1..] == "_" && "_"[1..] == [];
    } else {
      assert "_"[1..] == [];
    }
  }
}
