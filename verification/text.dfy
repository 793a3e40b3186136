/** Character classes and string helpers with the semantics of the JavaScript
    built-ins the routes use: `\s`, `.`, `includes`, `trim`, `split`, `parseInt`
    and number-to-string conversion of integers. */
module Text {
  import opened Wrappers

  predicate IsDigit(c: char) { '0' <= c <= '9' }

  predicate IsAsciiLetter(c: char) { 'A' <= c <= 'Z' || 'a' <= c <= 'z' }

  predicate IsAscii(c: char) { c as int < 0x80 }

  predicate IsHexDigit(c: char) { IsDigit(c) || 'a' <= c <= 'f' || 'A' <= c <= 'F' }

  /** The characters a regular-expression `.` does not match. */
  predicate IsLineTerminator(c: char) {
    c == '\n' || c == '\r' || c == '\U{2028}' || c == '\U{2029}'
  }

  /** The class `\s` of JavaScript regular expressions; `String.prototype.trim`
      and `parseInt` strip exactly these characters. */
  predicate IsSpace(c: char) {
    || ('\t' <= c <= '\r')
    || c == ' '
    || c == '\U{00A0}'
    || c == '\U{1680}'
    || ('\U{2000}' <= c <= '\U{200A}')
    || c == '\U{2028}'
    || c == '\U{2029}'
    || c == '\U{202F}'
    || c == '\U{205F}'
    || c == '\U{3000}'
    || c == '\U{FEFF}'
  }

  lemma LineTerminatorIsSpace(c: char)
    ensures IsLineTerminator(c) ==> IsSpace(c)
  {}

  /** JavaScript truthiness of a string that may be null or undefined. */
  predicate Truthy(s: Option<string>) { s.Some? && s.value != "" }

  /** `s` holds `lit` at position `i`. */
  predicate At(s: string, i: int, lit: string) {
    0 <= i && i + |lit| <= |s| && s[i..i + |lit|] == lit
  }

  predicate StartsWith(s: string, prefix: string) { At(s, 0, prefix) }

  predicate EndsWith(s: string, suffix: string) { At(s, |s| - |suffix|, suffix) }

  /** `s.includes(part)`. */
  predicate Contains(s: string, part: string) {
    exists i | 0 <= i <= |s| - |part| :: At(s, i, part)
  }

  /** A part that starts some suffix of `s` is contained in `s`. */
  lemma ContainsAtSuffix(s: string, j: nat, part: string)
    requires j <= |s| && StartsWith(s[j..], part)
    ensures Contains(s, part)
  {
    assert s[j..][..|part|] == s[j..j + |part|];
    assert At(s, j, part);
  }

  /** What a suffix of `s` contains, `s` contains. */
  lemma ContainsOfSuffix(s: string, j: nat, part: string)
    requires j <= |s| && Contains(s[j..], part)
    ensures Contains(s, part)
  {
    var i :| 0 <= i <= |s[j..]| - |part| && At(s[j..], i, part);
    assert s[j..][i..i + |part|] == s[j + i..j + i + |part|];
    assert At(s, j + i, part);
  }

  /** The smallest `k` in `lo..hi` satisfying `p`: the leftmost position at
      which a regular expression search succeeds. */
  function FirstIn(lo: nat, hi: int, p: nat -> bool): (r: Option<nat>)
    ensures r.Some? ==> lo <= r.value <= hi && p(r.value) && forall k: nat | lo <= k < r.value :: !p(k)
    ensures r.None? ==> forall k: nat | lo <= k <= hi :: !p(k)
    decreases hi - lo
  {
    if hi < lo then None else if p(lo) then Some(lo) else FirstIn(lo + 1, hi, p)
  }

  /** The largest `k` in `lo..hi` satisfying `p`: the order in which a greedy
      quantifier gives characters back when the rest of the pattern fails. */
  function LastIn(lo: nat, hi: int, p: nat -> bool): (r: Option<nat>)
    ensures r.Some? ==> lo <= r.value <= hi && p(r.value) && forall k: nat | r.value < k <= hi :: !p(k)
    ensures r.None? ==> forall k: nat | lo <= k <= hi :: !p(k)
    decreases hi - lo
  {
    if hi < lo then None else if p(hi) then Some(hi) else LastIn(lo, hi - 1, p)
  }

  /** Length of the longest run of characters satisfying `p` that starts at `j`. */
  function Run(s: string, j: nat, p: char -> bool): (n: nat)
    ensures j + n <= |s| || n == 0
    ensures forall k | j <= k < j + n :: p(s[k])
    ensures j + n < |s| ==> !p(s[j + n])
    decreases |s| - j
  {
    if j < |s| && p(s[j]) then 1 + Run(s, j + 1, p) else 0
  }

  /** A run can be measured from the suffix it starts. */
  lemma {:induction false} RunShift(s: string, j: nat, p: char -> bool)
    requires j <= |s|
    ensures Run(s, j, p) == Run(s[j..], 0, p)
    decreases |s| - j
  {
    if j < |s| && p(s[j]) {
      RunShift(s, j + 1, p);
      RunShift(s[j..], 1, p);
      assert s[j..][1..] == s[j + 1..];
    }
  }

  /** A run over a prefix whose characters all satisfy `p` and that stops
      where `p` fails. */
  lemma AllOfConcat(a: string, b: string, p: char -> bool)
    requires forall c | c in a :: p(c)
    requires forall c | c in b :: p(c)
    ensures forall c | c in a + b :: p(c)
  {}

  lemma RunAll(s: string, p: char -> bool)
    requires forall c | c in s :: p(c)
    ensures Run(s, 0, p) == |s|
  {
    RunOfConcat(s, "", p);
    assert s + "" == s;
  }

  /** A run that starts after a one-character head and covers two pieces. */
  lemma RunAfterHead(h: string, a: string, b: string, p: char -> bool)
    requires |h| == 1
    requires forall c | c in a :: p(c)
    requires forall c | c in b :: p(c)
    ensures Run(h + a + b, 1, p) == |a| + |b|
  {
    var s := h + a + b;
    assert Run(a + b, 0, p) == |a| + |b| by {
      AllOfConcat(a, b, p);
      RunAll(a + b, p);
    }
    assert s[1..] == a + b;
    RunShift(s, 1, p);
  }

  lemma RunOfConcat(a: string, b: string, p: char -> bool)
    requires forall c | c in a :: p(c)
    requires b == "" || !p(b[0])
    ensures Run(a + b, 0, p) == |a|
  {
    TakeWhileConcat(a, b, p);
  }

  /** The longest prefix of `s` whose characters all satisfy `p`. */
  function TakeWhile(s: string, p: char -> bool): (t: string)
    ensures StartsWith(s, t)
    ensures forall c | c in t :: p(c)
    ensures |t| < |s| ==> !p(s[|t|])
  {
    s[..Run(s, 0, p)]
  }

  /** `trimStart`: drops leading `\s` characters. */
  function TrimStart(s: string): (t: string)
    ensures |t| <= |s| && t == s[|s| - |t|..]
    ensures t == "" || !IsSpace(t[0])
    ensures forall k | 0 <= k < |s| - |t| :: IsSpace(s[k])
    decreases |s|
  {
    if |s| > 0 && IsSpace(s[0]) then TrimStart(s[1..]) else s
  }

  /** `trimEnd`: drops trailing `\s` characters. */
  function TrimEnd(s: string): (t: string)
    ensures |t| <= |s| && t == s[..|t|]
    ensures t == "" || !IsSpace(t[|t| - 1])
    ensures forall k | |t| <= k < |s| :: IsSpace(s[k])
    decreases |s|
  {
    if |s| > 0 && IsSpace(s[|s| - 1]) then TrimEnd(s[..|s| - 1]) else s
  }

  /** A string that `trim` leaves unchanged. */
  predicate Trimmed(s: string) {
    s == "" || (!IsSpace(s[0]) && !IsSpace(s[|s| - 1]))
  }

  /** `String.prototype.trim`. */
  function Trim(s: string): (t: string)
    ensures Trimmed(t)
    ensures Trimmed(s) ==> t == s
  {
    TrimEnd(TrimStart(s))
  }

  function LowerChar(c: char): char {
    if 'A' <= c <= 'Z' then (c as int + 32) as char else c
  }

  /** `toLowerCase` on the ASCII letters; other characters are kept. */
  function ToLowerAscii(s: string): (t: string)
    ensures |t| == |s|
    ensures forall k | 0 <= k < |s| :: t[k] == LowerChar(s[k])
  {
    if s == [] then [] else [LowerChar(s[0])] + ToLowerAscii(s[1..])
  }

  function DigitChar(d: nat): (c: char)
    requires d < 10
    ensures IsDigit(c)
  {
    ('0' as int + d) as char
  }

  /** Decimal rendering of a natural number, as `String(n)` produces it. */
  function NatToString(n: nat): (s: string)
    ensures s != ""
    ensures forall c | c in s :: IsDigit(c)
    ensures n >= 10 ==> s[0] != '0'
  {
    if n < 10 then [DigitChar(n)] else NatToString(n / 10) + [DigitChar(n % 10)]
  }

  /** Decimal rendering of an integer, with a leading `-` when negative. */
  function IntToString(n: int): (s: string)
    ensures s != ""
    ensures n >= 0 ==> s == NatToString(n)
    ensures n < 0 ==> s == "-" + NatToString(-n)
  {
    if n < 0 then "-" + NatToString(-n) else NatToString(n)
  }

  function DigitValue(c: char): (d: nat)
    requires IsHexDigit(c)
    ensures d < 16
    ensures IsDigit(c) <==> d < 10
  {
    if IsDigit(c) then c as int - '0' as int
    else if 'a' <= c <= 'f' then c as int - 'a' as int + 10
    else c as int - 'A' as int + 10
  }

  /** The value of a string of digits in base `radix`. */
  function RadixValue(s: string, radix: nat): nat
    requires forall c | c in s :: IsHexDigit(c)
  {
    if s == [] then 0 else RadixValue(s[..|s| - 1], radix) * radix + DigitValue(s[|s| - 1])
  }

  lemma {:induction false} NatToStringValue(n: nat)
    ensures RadixValue(NatToString(n), 10) == n
  {
    var s := NatToString(n);
    if n >= 10 {
      NatToStringValue(n / 10);
      assert s[..|s| - 1] == NatToString(n / 10);
    }
  }

  /** `parseInt(s)` without a radix argument; None stands for NaN. Leading
      white space and one sign are skipped, then the number is read by
      ParseUnsigned. */
  function ParseInt(s: string): Option<int> {
    var t := TrimStart(s);
    if |t| > 0 && t[0] == '-' then
      match ParseUnsigned(t[1..])
      case Some(v) => Some(-v)
      case None => None
    else if |t| > 0 && t[0] == '+' then ParseUnsigned(t[1..])
    else ParseUnsigned(t)
  }

  /** The unsigned part of `parseInt`: a `0x`/`0X` prefix selects base 16,
      otherwise base 10, and the longest run of digits of the base is read;
      an empty run is NaN. */
  function ParseUnsigned(u: string): (r: Option<int>)
    ensures r.Some? ==> r.value >= 0
  {
    if |u| >= 2 && u[0] == '0' && (u[1] == 'x' || u[1] == 'X') then
      var h := TakeWhile(u[2..], IsHexDigit);
      if h == "" then None else Some(RadixValue(h, 16))
    else
      var d := TakeWhile(u, IsDigit);
      if d == "" then None else Some(RadixValue(d, 10))
  }

  /** The longest `p`-prefix of `a + b` is `a` when every character of `a`
      satisfies `p` and `b` does not start with one that does. */
  lemma {:induction false} TakeWhileConcat(a: string, b: string, p: char -> bool)
    requires forall c | c in a :: p(c)
    requires b == "" || !p(b[0])
    ensures TakeWhile(a + b, p) == a
  {
    var k := Run(a + b, 0, p);
    assert forall i | 0 <= i < |a| :: p((a + b)[i]) by {
      forall i | 0 <= i < |a| ensures p((a + b)[i]) {
        assert (a + b)[i] == a[i];
      }
    }
    assert |a + b| > |a| ==> (a + b)[|a|] == b[0];
    assert k == |a|;
    assert (a + b)[..|a|] == a;
  }

  /** Reading back the decimal rendering of an integer gives the integer,
      whatever follows it, provided the text that follows does not continue the
      number (a digit) or turn a leading `0` into a `0x` prefix. */
  lemma ParseIntOfRendering(n: int, rest: string)
    requires rest == "" || (!IsDigit(rest[0]) && (n == 0 ==> rest[0] != 'x' && rest[0] != 'X'))
    ensures ParseInt(IntToString(n) + rest) == Some(n)
  {
    if n < 0 { NegCase(n, rest); } else { PosCase(n, rest); }
  }

  lemma NegCase(n: int, rest: string)
    requires n < 0
    requires rest == "" || !IsDigit(rest[0])
    ensures ParseInt(IntToString(n) + rest) == Some(n)
  {
    var m: nat := -n;
    var u := NatToString(m) + rest;
    assert IntToString(n) + rest == "-" + u;
    ParseUnsignedOfRendering(m, rest);
    ParseIntMinus(u, m);
  }

  lemma ParseIntMinus(u: string, m: nat)
    requires ParseUnsigned(u) == Some(m)
    ensures ParseInt("-" + u) == Some(0 - m as int)
  {
    var s := "-" + u;
    assert s[1..] == u;
    TrimStartKeeps(s);
  }

  lemma PosCase(n: int, rest: string)
    requires n >= 0
    requires rest == "" || (!IsDigit(rest[0]) && (n == 0 ==> rest[0] != 'x' && rest[0] != 'X'))
    ensures ParseInt(IntToString(n) + rest) == Some(n)
  {
    var u := NatToString(n) + rest;
    ParseUnsignedOfRendering(n, rest);
    assert IntToString(n) + rest == u;
    assert u[0] == NatToString(n)[0];
    TrimStartKeeps(u);
  }

  lemma TrimStartKeeps(s: string)
    requires s != "" && (s[0] == '-' || IsDigit(s[0]))
    ensures TrimStart(s) == s
  {
    assert !IsSpace(s[0]);
  }

  lemma ParseUnsignedOfRendering(m: nat, rest: string)
    requires rest == "" || (!IsDigit(rest[0]) && (m == 0 ==> rest[0] != 'x' && rest[0] != 'X'))
    ensures ParseUnsigned(NatToString(m) + rest) == Some(m)
  {
    var digits := NatToString(m);
    var u := digits + rest;
    assert !(|u| >= 2 && u[0] == '0' && (u[1] == 'x' || u[1] == 'X')) by {
      if |u| >= 2 && u[0] == '0' {
        assert m < 10;
        assert u[1] == rest[0];
      }
    }
    TakeWhileConcat(digits, rest, IsDigit);
    NatToStringValue(m);
  }

  /** `s.split(sep)` for a one-character separator. */
  function Split(s: string, sep: char): (parts: seq<string>)
    ensures |parts| >= 1
    ensures forall k | 0 <= k < |parts| :: sep !in parts[k]
    decreases |s|
  {
    var n := Run(s, 0, c => c != sep);
    if n == |s| then [s] else [s[..n]] + Split(s[n + 1..], sep)
  }

  /** `parts.join(sep)`. */
  function JoinWith(parts: seq<string>, sep: char): string
    requires |parts| >= 1
  {
    if |parts| == 1 then parts[0] else parts[0] + [sep] + JoinWith(parts[1..], sep)
  }

  /** Splitting and joining again with the same separator gives back the string. */
  lemma {:induction false} SplitJoin(s: string, sep: char)
    ensures JoinWith(Split(s, sep), sep) == s
    decreases |s|
  {
    var n := Run(s, 0, c => c != sep);
    if n < |s| {
      SplitJoin(s[n + 1..], sep);
      assert s == s[..n] + [sep] + s[n + 1..];
    }
  }

  /** Every character of `s` satisfies `p`. */
  predicate AllOf(s: string, p: char -> bool) {
    forall k | 0 <= k < |s| :: p(s[k])
  }

  /** A per-character replacement, `s.replace(/[…]/g, f)` for a class of
      single characters: each character becomes `f` of it. */
  function MapChars(s: string, f: char -> string): string {
    if s == [] then [] else f(s[0]) + MapChars(s[1..], f)
  }

  lemma {:induction false} MapCharsConcat(a: string, b: string, f: char -> string)
    ensures MapChars(a + b, f) == MapChars(a, f) + MapChars(b, f)
    decreases |a|
  {
    if a == [] {
      assert a + b == b;
    } else {
      assert (a + b)[0] == a[0];
      assert (a + b)[1..] == a[1..] + b;
      MapCharsConcat(a[1..], b, f);
    }
  }

  /** When every replacement satisfies `p`, so does the whole result. */
  lemma {:induction false} MapCharsAll(s: string, f: char -> string, p: char -> bool)
    requires forall c | c in s :: AllOf(f(c), p)
    ensures AllOf(MapChars(s, f), p)
    decreases |s|
  {
    if s != [] {
      assert forall c | c in s[1..] :: c in s;
      MapCharsAll(s[1..], f, p);
      var h := f(s[0]);
      var t := MapChars(s[1..], f);
      assert forall k | |h| <= k < |h + t| :: (h + t)[k] == t[k - |h|];
    }
  }

  /** A replacement that keeps every character of `s` keeps `s`. */
  lemma {:induction false} MapCharsKeeps(s: string, f: char -> string)
    requires forall c | c in s :: f(c) == [c]
    ensures MapChars(s, f) == s
    decreases |s|
  {
    if s != [] {
      assert forall c | c in s[1..] :: c in s;
      MapCharsKeeps(s[1..], f);
      assert s == [s[0]] + s[1..];
    }
  }
}
