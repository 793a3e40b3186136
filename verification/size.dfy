/** `parseSize`: the size column of a yt-dlp progress line (`10.50MiB`) to a
    byte count through a fixed unit table. */
module Size {
  import opened Wrappers
  import opened Text
  import opened Numbers

  /** The unit table: binary multipliers for the decimal and the IEC spellings. */
  function UnitTable(unit: string): Option<nat> {
    if unit == "B" then Some(1)
    else if unit == "KB" || unit == "KiB" then Some(1024)
    else if unit == "MB" || unit == "MiB" then Some(1024 * 1024)
    else if unit == "GB" || unit == "GiB" then Some(1024 * 1024 * 1024)
    else None
  }

  /** `units[unit] || 1`: a unit outside the table multiplies by 1. */
  function Multiplier(unit: string): nat {
    UnitTable(unit).GetOr(1)
  }

  /** Names made of letters that every JavaScript object inherits from
      `Object.prototype`; looking one up in the unit table yields a function. */
  const InheritedNames: set<string> := {
    "constructor", "hasOwnProperty", "isPrototypeOf", "propertyIsEnumerable",
    "toLocaleString", "toString", "valueOf"
  }

  /** The match of `^([\d.]+)\s*([A-Za-z]+)$`: the number and the unit. */
  function SplitSize(s: string): Option<(string, string)> {
    var num := TakeWhile(s, IsDigitOrDot);
    var rest := s[|num|..];
    var unit := rest[Run(rest, 0, IsSpace)..];
    if num != "" && unit != "" && forall c | c in unit :: IsAsciiLetter(c) then Some((num, unit))
    else None
  }

  /** `parseSize` as the source writes it: the table lookup also finds the
      inherited names, and multiplying by a function gives NaN. */
  function ParseSizeAsWritten(sizeStr: string): JsNumber {
    if sizeStr == "" then Finite(0.0)
    else match SplitSize(sizeStr)
      case None => Finite(0.0)
      case Some((num, unit)) =>
        if unit in InheritedNames then NaN else Times(ParseDecimal(num), Multiplier(unit))
  }

  /** `parseSize` with the table read as the fixed unit table it is meant to be:
      0 for an empty or malformed size, number times multiplier otherwise. */
  function ParseSize(sizeStr: string): (r: JsNumber)
    ensures SplitSize(sizeStr).None? ==> r == Finite(0.0)
  {
    match SplitSize(sizeStr)
    case None => Finite(0.0)
    case Some((num, unit)) => Times(ParseDecimal(num), Multiplier(unit))
  }

  /** The recogniser accepts exactly number, optional white space, unit:
      a string built that way splits back into its number and unit. */
  lemma SplitSizeOfShape(num: string, spaces: string, unit: string)
    requires num != "" && forall c | c in num :: IsDigitOrDot(c)
    requires forall c | c in spaces :: IsSpace(c)
    requires unit != "" && forall c | c in unit :: IsAsciiLetter(c)
    ensures SplitSize(num + spaces + unit) == Some((num, unit))
  {
    var s := num + spaces + unit;
    assert s == num + (spaces + unit);
    assert !IsDigitOrDot((spaces + unit)[0]) by {
      if spaces == "" {
        LettersAreNotSpaces(unit[0]);
      } else {
        SpacesAreNotDigits(spaces[0]);
      }
    }
    TakeWhileConcat(num, spaces + unit, IsDigitOrDot);
    var rest := s[|num|..];
    assert rest == spaces + unit;
    LettersAreNotSpaces(unit[0]);
    TakeWhileConcat(spaces, unit, IsSpace);
    assert Run(rest, 0, IsSpace) == |spaces|;
    assert rest[|spaces|..] == unit;
  }

  /** Conversely, every accepted string is number, white space, unit. */
  lemma SplitSizeShape(s: string)
    requires SplitSize(s).Some?
    ensures var (num, unit) := SplitSize(s).value;
      && num != "" && (forall c | c in num :: IsDigitOrDot(c))
      && unit != "" && (forall c | c in unit :: IsAsciiLetter(c))
      && exists k | |num| <= k <= |s| :: s == num + s[|num|..k] + unit && forall c | c in s[|num|..k] :: IsSpace(c)
    ensures IsDigitOrDot(s[0]) && IsAsciiLetter(s[|s| - 1])
  {
    var num := TakeWhile(s, IsDigitOrDot);
    var rest := s[|num|..];
    var k := Run(rest, 0, IsSpace);
    assert s == num + s[|num|..|num| + k] + rest[k..];
    assert forall c | c in s[|num|..|num| + k] :: IsSpace(c) by {
      assert s[|num|..|num| + k] == rest[..k];
    }
    assert s[0] == num[0];
    assert s[|s| - 1] == rest[|rest| - 1];
  }

  lemma SpacesAreNotDigits(c: char)
    requires IsSpace(c)
    ensures !IsDigitOrDot(c)
  {}

  lemma LettersAreNotSpaces(c: char)
    requires IsAsciiLetter(c)
    ensures !IsSpace(c) && !IsDigitOrDot(c)
  {}

  /** The multipliers of the unit table. */
  lemma UnitMultipliers(unit: string)
    ensures unit == "B" ==> Multiplier(unit) == 1
    ensures unit == "KB" || unit == "KiB" ==> Multiplier(unit) == 1024
    ensures unit == "MB" || unit == "MiB" ==> Multiplier(unit) == 1048576
    ensures unit == "GB" || unit == "GiB" ==> Multiplier(unit) == 1073741824
    ensures UnitTable(unit).None? ==> Multiplier(unit) == 1
  {}

  /** A well-formed size is its number times the unit's multiplier: 1 for `B`,
      1024 for `KB`/`KiB`, 1024² for `MB`/`MiB`, 1024³ for `GB`/`GiB`, 1 for
      any other run of letters. */
  lemma ParseSizeOfShape(n: nat, spaces: string, unit: string)
    requires forall c | c in spaces :: IsSpace(c)
    requires unit != "" && forall c | c in unit :: IsAsciiLetter(c)
    ensures ParseSize(NatToString(n) + spaces + unit) == Times(Finite(n as real), Multiplier(unit))
  {
    var num := NatToString(n);
    var m := Multiplier(unit);
    assert ParseDecimal(num) == Finite(n as real) by {
      ParseDecimalOfInteger(n);
    }
    assert ParseSize(num + spaces + unit) == Times(ParseDecimal(num), m) by {
      ParseDecimalOfInteger(n);
      ParseSizeOfParts(num, spaces, unit);
    }
  }

  /** A number, white space and a unit parse as the number times the unit's
      multiplier. */
  lemma ParseSizeOfParts(num: string, spaces: string, unit: string)
    requires num != "" && forall c | c in num :: IsDigitOrDot(c)
    requires forall c | c in spaces :: IsSpace(c)
    requires unit != "" && forall c | c in unit :: IsAsciiLetter(c)
    ensures ParseSize(num + spaces + unit) == Times(ParseDecimal(num), Multiplier(unit))
  {
    var s := num + spaces + unit;
    SplitSizeOfShape(num, spaces, unit);
    ParseSizeOfSplit(s, num, unit);
  }

  lemma ParseSizeOfSplit(s: string, num: string, unit: string)
    requires SplitSize(s) == Some((num, unit))
    ensures forall c | c in num :: IsDigitOrDot(c)
    ensures ParseSize(s) == Times(ParseDecimal(num), Multiplier(unit))
  {}

  /** The sizes the recogniser rejects count as zero bytes. */
  lemma ParseSizeRejects(s: string)
    requires s == "" || (|s| > 0 && !IsDigitOrDot(s[0])) || (|s| > 0 && !IsAsciiLetter(s[|s| - 1]))
    ensures ParseSize(s) == Finite(0.0)
  {
    if SplitSize(s).Some? {
      SplitSizeShape(s);
    }
  }

  /** The two readings differ only on the inherited names. */
  lemma AsWrittenAgrees(s: string)
    requires SplitSize(s).None? || SplitSize(s).value.1 !in InheritedNames
    ensures ParseSizeAsWritten(s) == ParseSize(s)
  {}

  /** As written, a size whose unit is an inherited property name is NaN
      although the table has no such unit: `5toString` reads as NaN, not 5. */
  lemma InheritedUnitGivesNaN()
    ensures ParseSizeAsWritten("5toString") == NaN
    ensures ParseSize("5toString") == Finite(5.0)
  {
    SplitSizeOfShape("5", "", "toString");
    assert "5" + "" + "toString" == "5toString";
    ParseDecimalOfInteger(5);
    assert NatToString(5) == "5";
  }
}
