/** The recognisers for the lines yt-dlp prints on standard output, each one
    the regular expression of the progress route worked out as a search: the
    leftmost start position at which the pattern matches, greedy quantifiers
    taking as much as they can and giving characters back only when the rest
    of the pattern fails. */
module Lines {
  import opened Wrappers
  import opened Text
  import opened Numbers

  predicate IsNonSpace(c: char) { !IsSpace(c) }

  predicate IsNonTerminator(c: char) { !IsLineTerminator(c) }

  /** A `[^\s]+` token. */
  predicate IsWord(w: string) {
    w != "" && forall c | c in w :: !IsSpace(c)
  }

  /** The text `(\d+\.?\d*)` captures: digits, then possibly a dot and more
      digits. */
  predicate IsPercentText(p: string) {
    var k := Run(p, 0, IsDigit);
    k > 0 && (k == |p| || (p[k] == '.' && forall c | c in p[k + 1..] :: IsDigit(c)))
  }

  /** A percentage is made of the characters `parseFloat` is given here. */
  lemma PercentTextChars(p: string)
    requires IsPercentText(p)
    ensures forall c | c in p :: IsDigitOrDot(c)
  {
    var k := Run(p, 0, IsDigit);
    forall i | 0 <= i < |p| ensures IsDigitOrDot(p[i]) {
      if i > k {
        assert p[i] == p[k + 1..][i - k - 1];
      }
    }
  }

  /** A captured file name as yt-dlp prints it: one line, nothing for `trim`
      to remove. */
  predicate IsPathText(p: string) {
    p != "" && Trimmed(p) && forall c | c in p :: !IsLineTerminator(c)
  }

  /** The four captures of a progress line: percentage, total size, speed and
      time left. */
  datatype ProgressFact = ProgressFact(percent: string, size: string, speed: string, eta: string)

  predicate WellFormed(f: ProgressFact) {
    IsPercentText(f.percent) && IsWord(f.size) && IsWord(f.speed) && IsWord(f.eta)
  }

  /** The progress line yt-dlp prints for a fact. */
  function Render(f: ProgressFact): string {
    "[download] " + f.percent + "% of " + f.size + " at " + f.speed + " ETA " + f.eta
  }

  // Steps of a pattern, each reading the front of the remaining text.

  /** A literal: what follows it. */
  function Lit(s: string, lit: string): (r: Option<string>)
    ensures r.Some? <==> StartsWith(s, lit)
    ensures r.Some? ==> s == lit + r.value
  {
    if StartsWith(s, lit) then Some(s[|lit|..]) else None
  }

  /** `\s+`, greedy: what follows the run of white space. */
  function Spaces(s: string): (r: Option<string>)
    ensures r.Some? <==> s != "" && IsSpace(s[0])
    ensures r.Some? ==> |r.value| < |s| && s[|s| - |r.value|..] == r.value
    ensures r.Some? ==> r.value == "" || !IsSpace(r.value[0])
  {
    var k := Run(s, 0, IsSpace);
    if k == 0 then None else Some(s[k..])
  }

  /** `[^\s]+`, greedy: the token and what follows it. */
  function Word(s: string): (r: Option<(string, string)>)
    ensures r.Some? <==> s != "" && !IsSpace(s[0])
    ensures r.Some? ==> IsWord(r.value.0) && s == r.value.0 + r.value.1
    ensures r.Some? ==> r.value.1 == "" || IsSpace(r.value.1[0])
  {
    var w := TakeWhile(s, IsNonSpace);
    if w == "" then None else Some((w, s[|w|..]))
  }

  /** `\d+\.?\d*`, greedy, at the front of `s`: "" when `s` does not start
      with a digit. */
  function Number(s: string): (num: string)
    ensures StartsWith(s, num)
    ensures num == "" <==> s == "" || !IsDigit(s[0])
    ensures num != "" ==> IsPercentText(num)
  {
    var whole := TakeWhile(s, IsDigit);
    if whole != "" && |whole| < |s| && s[|whole|] == '.' then
      var frac := TakeWhile(s[|whole| + 1..], IsDigit);
      NumberWithDot(s, whole, frac);
      whole + "." + frac
    else whole
  }

  lemma NumberWithDot(s: string, whole: string, frac: string)
    requires whole == TakeWhile(s, IsDigit) && whole != ""
    requires |whole| < |s| && s[|whole|] == '.'
    requires frac == TakeWhile(s[|whole| + 1..], IsDigit)
    ensures StartsWith(s, whole + "." + frac) && IsPercentText(whole + "." + frac)
  {
    var n := whole + "." + frac;
    assert s[..|whole|] == whole;
    assert s[|whole| + 1..][..|frac|] == frac;
    assert s[..|n|] == n;
    TakeWhileConcat(whole, "." + frac, IsDigit);
    assert n == whole + ("." + frac);
    assert n[|whole| + 1..] == frac;
  }

  /** `(\d+\.?\d*)%`: the number and what follows the `%`. No backtracking
      can help here, since neither a digit nor a dot is a `%`. */
  function Percent(s: string): (r: Option<(string, string)>)
    ensures r.Some? ==> IsPercentText(r.value.0) && s == r.value.0 + "%" + r.value.1
  {
    var num := Number(s);
    if num == "" then None
    else
      var rest :- Lit(s[|num|..], "%");
      assert s == num + s[|num|..];
      Some((num, rest))
  }

  /** The leftmost match of a pattern anchored by `at` at each position. */
  function Leftmost<T>(line: string, at: string -> Option<T>): (r: Option<T>)
    ensures r.Some? ==> exists i | 0 <= i <= |line| :: at(line[i..]) == r
    ensures r.None? ==> forall i | 0 <= i <= |line| :: at(line[i..]).None?
  {
    LeftmostFrom(line, 0, at)
  }

  function LeftmostFrom<T>(line: string, i: nat, at: string -> Option<T>): (r: Option<T>)
    requires i <= |line|
    ensures r.Some? ==> exists j | i <= j <= |line| :: at(line[j..]) == r
    ensures r.None? ==> forall j | i <= j <= |line| :: at(line[j..]).None?
    decreases |line| - i
  {
    var m := at(line[i..]);
    if m.Some? then m
    else if i == |line| then None
    else LeftmostFrom(line, i + 1, at)
  }

  /** A pattern that matches at the start of a line is the leftmost match. */
  lemma LeftmostAtStart<T>(line: string, at: string -> Option<T>)
    requires at(line).Some?
    ensures Leftmost(line, at) == at(line)
  {
    assert line[0..] == line;
  }

  // The progress line.

  /** `\s+<key>\s+([^\s]+)`: the token after a key, and what follows it. */
  function Field(s: string, key: string): (r: Option<(string, string)>)
    ensures r.Some? ==> IsWord(r.value.0)
  {
    var a :- Spaces(s);
    var b :- Lit(a, key);
    var c :- Spaces(b);
    Word(c)
  }

  /** `\[download\]\s+(\d+\.?\d*)%\s+of\s+([^\s]+)\s+at\s+([^\s]+)\s+ETA\s+([^\s]+)`
      anchored at the front of `s`. */
  function ProgressAt(s: string): (r: Option<ProgressFact>)
    ensures r.Some? ==> WellFormed(r.value)
  {
    var a :- Lit(s, "[download]");
    var b :- Spaces(a);
    var pc :- Percent(b);
    var size :- Field(pc.1, "of");
    var speed :- Field(size.1, "at");
    var eta :- Field(speed.1, "ETA");
    Some(ProgressFact(pc.0, size.0, speed.0, eta.0))
  }

  /** `line.match(progressPattern)`: the captures of the leftmost match. */
  function MatchProgress(line: string): (r: Option<ProgressFact>)
    ensures r.Some? ==> WellFormed(r.value)
  {
    Leftmost(line, ProgressAt)
  }

  lemma LitOf(lit: string, r: string)
    ensures Lit(lit + r, lit) == Some(r)
  {
    assert (lit + r)[..|lit|] == lit;
    assert (lit + r)[|lit|..] == r;
  }

  lemma SpacesOf(r: string)
    requires r == "" || !IsSpace(r[0])
    ensures Spaces(" " + r) == Some(r)
  {
    var s := " " + r;
    assert Run(s, 1, IsSpace) == 0 by {
      assert |s| > 1 ==> s[1] == r[0];
    }
    assert s[1..] == r;
  }

  lemma WordOf(w: string, r: string)
    requires IsWord(w)
    requires r == "" || IsSpace(r[0])
    ensures Word(w + r) == Some((w, r))
  {
    TakeWhileConcat(w, r, IsNonSpace);
    assert (w + r)[|w|..] == r;
  }

  lemma PercentOf(p: string, r: string)
    requires IsPercentText(p)
    ensures Percent(p + "%" + r) == Some((p, r))
  {
    var s := p + "%" + r;
    assert s == p + ("%" + r);
    NumberOf(p, "%" + r);
    assert s[|p|..] == "%" + r;
    LitOf("%", r);
  }

  /** The number scanner reads back a number followed by a character that
      cannot continue it. */
  lemma NumberOf(p: string, r: string)
    requires IsPercentText(p)
    requires r != "" && !IsDigitOrDot(r[0])
    ensures Number(p + r) == p
  {
    var k := Run(p, 0, IsDigit);
    if k == |p| {
      assert p[..k] == p;
      NumberOfWhole(p, r);
    } else {
      var d1 := p[..k];
      var d2 := p[k + 1..];
      assert p == d1 + "." + d2;
      NumberOfParts(d1, d2, r);
    }
  }

  lemma NumberOfWhole(p: string, r: string)
    requires p != "" && forall c | c in p :: IsDigit(c)
    requires r != "" && !IsDigitOrDot(r[0])
    ensures Number(p + r) == p
  {
    TakeWhileConcat(p, r, IsDigit);
    assert (p + r)[|p|] == r[0];
  }

  lemma NumberOfParts(d1: string, d2: string, r: string)
    requires d1 != "" && forall c | c in d1 :: IsDigit(c)
    requires forall c | c in d2 :: IsDigit(c)
    requires r != "" && !IsDigitOrDot(r[0])
    ensures Number(d1 + "." + d2 + r) == d1 + "." + d2
  {
    var s := d1 + "." + d2 + r;
    assert s == d1 + ("." + d2 + r);
    TakeWhileConcat(d1, "." + d2 + r, IsDigit);
    assert s[|d1| + 1..] == d2 + r;
    TakeWhileConcat(d2, r, IsDigit);
  }

  /** The text a field is printed as: a space, the key, a space, the token. */
  function FieldText(key: string, w: string, r: string): (t: string)
    ensures t != "" && t[0] == ' '
  {
    " " + key + " " + w + r
  }

  lemma FieldOf(key: string, w: string, r: string)
    requires key != "" && !IsSpace(key[0])
    requires IsWord(w)
    requires r == "" || IsSpace(r[0])
    ensures Field(FieldText(key, w, r), key) == Some((w, r))
  {
    assert w[0] in w;
    assert FieldText(key, w, r) == " " + (key + (" " + (w + r)));
    SpacesOf(key + (" " + (w + r)));
    LitOf(key, " " + (w + r));
    SpacesOf(w + r);
    WordOf(w, r);
  }

  /** A progress line reads back as the fact it was printed from, whatever
      white space ends the line (a `\r` on Windows). */
  lemma ProgressRoundTrip(f: ProgressFact, rest: string)
    requires WellFormed(f)
    requires rest == "" || IsSpace(rest[0])
    ensures MatchProgress(Render(f) + rest) == Some(f)
  {
    ProgressAtRender(f, rest);
    LeftmostAtStart(Render(f) + rest, ProgressAt);
  }

  lemma ProgressAtRender(f: ProgressFact, rest: string)
    requires WellFormed(f)
    requires rest == "" || IsSpace(rest[0])
    ensures ProgressAt(Render(f) + rest) == Some(f)
  {
    var x3 := FieldText("ETA", f.eta, rest);
    var x2 := FieldText("at", f.speed, x3);
    var x1 := FieldText("of", f.size, x2);
    var b := f.percent + "%" + x1;
    var a := " " + b;
    RenderPieces(f, rest);
    LitOf("[download]", a);
    SpacesOf(b);
    PercentOf(f.percent, x1);
    FieldsOf(f, rest);
    ProgressAtSteps("[download]" + a, a, b, x1, x2, x3, rest, f);
  }

  lemma FieldsOf(f: ProgressFact, rest: string)
    requires WellFormed(f)
    requires rest == "" || IsSpace(rest[0])
    ensures var x3 := FieldText("ETA", f.eta, rest);
      var x2 := FieldText("at", f.speed, x3);
      && Field(FieldText("of", f.size, x2), "of") == Some((f.size, x2))
      && Field(x2, "at") == Some((f.speed, x3))
      && Field(x3, "ETA") == Some((f.eta, rest))
  {
    var x3 := FieldText("ETA", f.eta, rest);
    var x2 := FieldText("at", f.speed, x3);
    FieldOf("of", f.size, x2);
    FieldOf("at", f.speed, x3);
    FieldOf("ETA", f.eta, rest);
  }

  lemma ProgressAtSteps(s: string, a: string, b: string, x1: string, x2: string, x3: string, rest: string, f: ProgressFact)
    requires Lit(s, "[download]") == Some(a) && Spaces(a) == Some(b)
    requires Percent(b) == Some((f.percent, x1))
    requires Field(x1, "of") == Some((f.size, x2))
    requires Field(x2, "at") == Some((f.speed, x3))
    requires Field(x3, "ETA") == Some((f.eta, rest))
    ensures ProgressAt(s) == Some(f)
  {
  }

  lemma RenderPieces(f: ProgressFact, rest: string)
    ensures Render(f) + rest == "[download]" + (" " + (f.percent + "%"
      + FieldText("of", f.size, FieldText("at", f.speed, FieldText("ETA", f.eta, rest)))))
  {
  }

  // The lines that announce the output file.

  /** `\s+(.+)` at the front of `s`: the greedy `\s+` gives back white space
      until `.+` finds a character that is not a line terminator. */
  function SpacedCapture(s: string): (r: Option<string>)
    ensures r.Some? ==> r.value != "" && forall c | c in r.value :: !IsLineTerminator(c)
  {
    var w := Run(s, 0, IsSpace);
    var k :- LastIn(1, w, CaptureStarts(s));
    var n := Run(s, k, IsNonTerminator);
    Some(s[k..k + n])
  }

  /** The positions from which `.+` matches at least one character. */
  function CaptureStarts(s: string): nat -> bool {
    (k: nat) => Run(s, k, IsNonTerminator) > 0
  }

  /** `\[download\]\s+Destination:\s+(.+)` anchored at the front of `s`, the
      capture trimmed as the route does; a capture of white space only trims
      to "". */
  function DestinationAt(s: string): (r: Option<string>)
    ensures r.Some? ==> Trimmed(r.value)
  {
    var a :- Lit(s, "[download]");
    var b :- Spaces(a);
    var c :- Lit(b, "Destination:");
    var name :- SpacedCapture(c);
    Some(Trim(name))
  }

  function MatchDestination(line: string): (r: Option<string>)
    ensures r.Some? ==> Trimmed(r.value)
  {
    Leftmost(line, DestinationAt)
  }

  /** The marker text of an already-downloaded line. */
  const AlreadyWords := "has already been downloaded"

  /** `\s+has already been downloaded` at the front of `s`. */
  predicate AlreadyTail(s: string) {
    var r := Spaces(s);
    r.Some? && StartsWith(r.value, AlreadyWords)
  }

  /** Where the greedy `(.+)` that starts at `k` ends: the last position from
      which the rest of the pattern matches. */
  function AlreadyEnd(a: string, k: nat): (r: Option<nat>)
    ensures r.Some? ==> k < r.value <= |a| && AlreadyTail(a[r.value..])
  {
    var n := Run(a, k, IsNonTerminator);
    LastIn(k + 1, k + n, TailStarts(a))
  }

  /** The positions from which `\s+has already been downloaded` matches. */
  function TailStarts(a: string): nat -> bool {
    (e: nat) => e <= |a| && AlreadyTail(a[e..])
  }

  /** The positions from which `(.+)\s+has already been downloaded` matches. */
  function CaptureEnds(a: string): nat -> bool {
    (k: nat) => AlreadyEnd(a, k).Some?
  }

  /** `\[download\]\s+(.+)\s+has already been downloaded` anchored at the
      front of `s`, the capture trimmed. */
  function AlreadyAt(s: string): (r: Option<string>)
    ensures r.Some? ==> Trimmed(r.value)
  {
    var a :- Lit(s, "[download]");
    var w := Run(a, 0, IsSpace);
    var k :- LastIn(1, w, CaptureEnds(a));
    var e := AlreadyEnd(a, k).value;
    Some(Trim(a[k..e]))
  }

  function MatchAlready(line: string): (r: Option<string>)
    ensures r.Some? ==> Trimmed(r.value)
  {
    Leftmost(line, AlreadyAt)
  }

  /** `\[Merger\]\s+Merging formats into "(.+)"` anchored at the front of
      `s`: the capture runs to the last quote on the line, trimmed. */
  function MergerAt(s: string): (r: Option<string>)
    ensures r.Some? ==> Trimmed(r.value)
  {
    var a :- Lit(s, "[Merger]");
    var b :- Spaces(a);
    var c :- Lit(b, "Merging formats into \"");
    var name :- QuotedCapture(c);
    Some(Trim(name))
  }

  /** `(.+)"` at the front of `s`: the greedy capture runs to the last quote
      before the end of the line. */
  function QuotedCapture(s: string): (r: Option<string>)
    ensures r.Some? ==> r.value != ""
  {
    var n := Run(s, 0, IsNonTerminator);
    var e :- LastIn(1, n - 1, QuoteAt(s));
    Some(s[..e])
  }

  function QuoteAt(s: string): nat -> bool {
    (e: nat) => e < |s| && s[e] == '"'
  }

  function MatchMerger(line: string): (r: Option<string>)
    ensures r.Some? ==> Trimmed(r.value)
  {
    Leftmost(line, MergerAt)
  }

  /** `\[download\] Destination: (.+)` anchored at the front of `s`, as the
      direct-download route matches it against a whole output chunk, without
      trimming. */
  function ChunkDestinationAt(s: string): (r: Option<string>)
    ensures r.Some? ==> r.value != "" && forall c | c in r.value :: !IsLineTerminator(c)
  {
    var c :- Lit(s, "[download] Destination: ");
    var n := Run(c, 0, IsNonTerminator);
    assert forall i | 0 <= i < n :: c[..n][i] == c[i];
    if n == 0 then None else Some(c[..n])
  }

  function MatchChunkDestination(chunk: string): (r: Option<string>)
    ensures r.Some? ==> r.value != "" && forall c | c in r.value :: !IsLineTerminator(c)
  {
    Leftmost(chunk, ChunkDestinationAt)
  }

  /** The merge marker of the combined download. */
  predicate IsMergeLine(line: string) {
    Contains(line, "[Merger]") || Contains(line, "Merging formats")
  }

  /** The completion marker of the audio download. */
  predicate IsAudioDoneLine(line: string) {
    Contains(line, "[download] 100%") || Contains(line, AlreadyWords)
  }

  /** A standard-error chunk that reports an error, not a warning. */
  predicate IsErrorChunk(chunk: string) {
    Contains(chunk, "ERROR:")
  }

  // Round trips of the file-name lines.

  lemma SpacedCaptureOf(p: string, rest: string)
    requires p != "" && !IsSpace(p[0]) && forall c | c in p :: !IsLineTerminator(c)
    requires rest == "" || IsLineTerminator(rest[0])
    ensures SpacedCapture(" " + p + rest) == Some(p)
  {
    var s := " " + p + rest;
    assert Run(s, 0, IsSpace) == 1 by {
      assert s == " " + (p + rest);
      RunOfConcat(" ", p + rest, IsSpace);
    }
    assert Run(s, 1, IsNonTerminator) == |p| by {
      RunShift(s, 1, IsNonTerminator);
      assert s[1..] == p + rest;
      RunOfConcat(p, rest, IsNonTerminator);
    }
    assert LastIn(1, 1, CaptureStarts(s)) == Some(1);
    assert s[1..1 + |p|] == p;
  }

  /** A destination line reads back as the path it announces. */
  lemma DestinationRoundTrip(p: string, rest: string)
    requires IsPathText(p)
    requires rest == "" || IsLineTerminator(rest[0])
    ensures MatchDestination("[download] Destination: " + p + rest) == Some(p)
  {
    var x := " " + p + rest;
    var line := "[download]" + (" " + ("Destination:" + x));
    assert "[download] Destination: " + p + rest == line;
    LitOf("[download]", " " + ("Destination:" + x));
    SpacesOf("Destination:" + x);
    LitOf("Destination:", x);
    SpacedCaptureOf(p, rest);
    assert DestinationAt(line) == Some(p);
    LeftmostAtStart(line, DestinationAt);
  }

  const AlreadySuffix := " " + AlreadyWords

  lemma AlreadyEndOf(p: string)
    requires IsPathText(p)
    ensures AlreadyEnd(" " + p + AlreadySuffix, 1) == Some(1 + |p|)
  {
    var a := " " + p + AlreadySuffix;
    AlreadyRun(p);
    assert TailStarts(a)(1 + |p|) by {
      assert a[1 + |p|..] == AlreadySuffix;
      SuffixIsTail();
    }
    LastTailEnd(a, 1 + |p|);
  }

  /** No tail starts closer to the end than the suffix's length, so the last
      tail of `a` starts where the suffix does. */
  lemma LastTailEnd(a: string, x: nat)
    requires x + |AlreadySuffix| == |a| && TailStarts(a)(x)
    requires x >= 2 && Run(a, 1, IsNonTerminator) == |a| - 1
    ensures AlreadyEnd(a, 1) == Some(x)
  {
    forall e: nat | x < e <= |a| ensures !TailStarts(a)(e) {
      NoTailNearEnd(a[e..]);
    }
  }

  lemma AlreadyRun(p: string)
    requires IsPathText(p)
    ensures Run(" " + p + AlreadySuffix, 1, IsNonTerminator) == |p| + |AlreadySuffix|
  {
    SuffixHasNoTerminator();
    RunAfterHead(" ", p, AlreadySuffix, IsNonTerminator);
  }

  lemma SuffixHasNoTerminator()
    ensures forall c | c in AlreadySuffix :: IsNonTerminator(c)
  {
    forall i | 0 <= i < |AlreadySuffix| ensures IsNonTerminator(AlreadySuffix[i]) {
    }
  }

  lemma SuffixIsTail()
    ensures AlreadyTail(AlreadySuffix)
  {
    SpacesOf(AlreadyWords);
    assert At(AlreadyWords, 0, AlreadyWords) by {
      assert AlreadyWords[0..|AlreadyWords|] == AlreadyWords;
    }
  }

  lemma NoTailNearEnd(s: string)
    requires |s| < |AlreadySuffix|
    ensures !AlreadyTail(s)
  {
  }

  /** An already-downloaded line reads back as the path it names. */
  lemma AlreadyRoundTrip(p: string)
    requires IsPathText(p)
    ensures MatchAlready("[download] " + p + AlreadySuffix) == Some(p)
  {
    var a := " " + p + AlreadySuffix;
    var line := "[download]" + a;
    assert "[download] " + p + AlreadySuffix == line;
    LitOf("[download]", a);
    assert a == " " + (p + AlreadySuffix);
    RunOfConcat(" ", p + AlreadySuffix, IsSpace);
    AlreadyEndOf(p);
    assert a[1..1 + |p|] == p;
    assert AlreadyAt(line) == Some(p);
    LeftmostAtStart(line, AlreadyAt);
  }

  /** A merger line reads back as the path between its quotes, even when the
      path itself holds a quote. */
  lemma MergerRoundTrip(p: string, rest: string)
    requires IsPathText(p)
    requires rest == "" || IsLineTerminator(rest[0])
    ensures MatchMerger("[Merger] Merging formats into \"" + p + "\"" + rest) == Some(p)
  {
    var line := "[Merger]" + (" " + ("Merging formats into \"" + (p + "\"" + rest)));
    MergerLineShape(p, rest);
    MergerAtOf(p, rest);
    LeftmostAtStart(line, MergerAt);
  }

  lemma MergerLineShape(p: string, rest: string)
    ensures "[Merger] Merging formats into \"" + p + "\"" + rest
         == "[Merger]" + (" " + ("Merging formats into \"" + (p + "\"" + rest)))
  {
    assert "[Merger] Merging formats into \"" == "[Merger]" + " " + "Merging formats into \"";
  }

  lemma MergerAtOf(p: string, rest: string)
    requires IsPathText(p)
    requires rest == "" || IsLineTerminator(rest[0])
    ensures MergerAt("[Merger]" + (" " + ("Merging formats into \"" + (p + "\"" + rest)))) == Some(p)
  {
    var c := p + "\"" + rest;
    LitOf("[Merger]", " " + ("Merging formats into \"" + c));
    SpacesOf("Merging formats into \"" + c);
    LitOf("Merging formats into \"", c);
    QuotedCaptureOf(p, rest);
  }

  lemma QuotedCaptureOf(p: string, rest: string)
    requires p != "" && forall c | c in p :: !IsLineTerminator(c)
    requires rest == "" || IsLineTerminator(rest[0])
    ensures QuotedCapture(p + "\"" + rest) == Some(p)
  {
    var c := p + "\"" + rest;
    RunOfConcat(p + "\"", rest, IsNonTerminator);
    assert QuoteAt(c)(|p|);
    assert c[..|p|] == p;
  }

  /** The direct-download route reads back the path of a destination line. */
  lemma ChunkDestinationRoundTrip(p: string, rest: string)
    requires p != "" && forall c | c in p :: !IsLineTerminator(c)
    requires rest == "" || IsLineTerminator(rest[0])
    ensures MatchChunkDestination("[download] Destination: " + p + rest) == Some(p)
  {
    var line := "[download] Destination: " + (p + rest);
    assert "[download] Destination: " + p + rest == line;
    ChunkDestinationAtOf(p, rest);
    LeftmostAtStart(line, ChunkDestinationAt);
  }

  lemma ChunkDestinationAtOf(p: string, rest: string)
    requires p != "" && forall c | c in p :: !IsLineTerminator(c)
    requires rest == "" || IsLineTerminator(rest[0])
    ensures ChunkDestinationAt("[download] Destination: " + (p + rest)) == Some(p)
  {
    LitOf("[download] Destination: ", p + rest);
    RunOfConcat(p, rest, IsNonTerminator);
    assert (p + rest)[..|p|] == p;
  }
}
