/** Which long names are valid, which are 8.3 names as they stand, and what becomes of those. */
module NameRules {
  import opened Memory
  import opened Ctype
  import opened Numbers
  import opened FatAdapter
  import opened LongNames
  import opened ShortNames

  // ---------------------------------------------------------------- stripping

  /** Nothing is left to strip: no space in front, and no space or period at the end. */
  ghost predicate IsStripped(s: string)
  {
    s == "" || (s[0] != ' ' && s[|s| - 1] !in {' ', '.'})
  }

  /** `name[i..j]` is the name without the spaces in front and the spaces and periods at the end. */
  ghost predicate StrippedAt(name: string, i: nat, j: nat)
  {
    && i <= j <= |name| && IsStripped(name[i..j])
    && (forall k :: 0 <= k < i ==> name[k] == ' ') && (forall k :: j <= k < |name| ==> name[k] in {' ', '.'})
  }

  /** What every long name goes through when it is made. */
  method StripSpacesAndTrailingPeriods(name: string) returns (stripped: string, ghost i: nat, ghost j: nat)
    ensures StrippedAt(name, i, j) && stripped == name[i..j] && IsStripped(stripped)
  {
    stripped, i, j := name, 0, |name|;
    while stripped != "" && stripped[0] == ' '
      invariant i <= |name| && stripped == name[i..] && forall k :: 0 <= k < i ==> name[k] == ' '
      decreases |stripped|
    {
      stripped, i := stripped[1..], i + 1;
    }
    while stripped != "" && (stripped[|stripped| - 1] == ' ' || stripped[|stripped| - 1] == '.')
      invariant i <= j <= |name| && stripped == name[i..j] && (stripped != "" ==> stripped[0] != ' ')
      invariant forall k :: j <= k < |name| ==> name[k] in {' ', '.'}
      decreases |stripped|
    {
      stripped, j := stripped[..|stripped| - 1], j - 1;
    }
  }

  /** There is only one way to strip a name, and a stripped one stays as it is. */
  lemma StrippedUnique(name: string, i: nat, j: nat, k: nat, m: nat)
    requires StrippedAt(name, i, j) && StrippedAt(name, k, m)
    ensures name[i..j] == name[k..m]
    ensures IsStripped(name) ==> name[i..j] == name
  {
    if i < j {
      assert name[i..j][0] == name[i] && name[i..j][j - i - 1] == name[j - 1];
    }
    if k < m {
      assert name[k..m][0] == name[k] && name[k..m][m - k - 1] == name[m - 1];
    }
  }

  // ---------------------------------------------------------------- valid names

  const ForbiddenInLongNames: string := "<>:\"/\\|?*"

  /** The test of one character of a name: printable, or a tab, which the class table counts as printable too. */
  predicate PassesTest(c: char)
  {
    (IsPrintable(c) || c == '\t') && c !in ForbiddenInLongNames
  }

  /** The characters a name can have. */
  ghost predicate IsAllowed(c: char)
  {
    (c as int == 9 || 32 <= c as int <= 126) && c !in {'<', '>', ':', '"', '/', '\\', '|', '?', '*'}
  }

  ghost predicate AllAllowed(s: string)
  {
    forall i :: 0 <= i < |s| ==> IsAllowed(s[i])
  }

  ghost predicate IsValidName(longName: string)
  {
    1 <= |longName| <= 255 && AllAllowed(longName)
  }

  method ContainsForbiddenCharacter(longName: string) returns (found: bool)
    requires IsCString(longName)
    ensures found == !AllAllowed(longName)
  {
    for i := 0 to |longName|
      invariant forall j :: 0 <= j < i ==> IsAllowed(longName[j])
    {
      if !PassesTest(longName[i]) {
        return true;
      }
    }
    return false;
  }

  method IsValid(longName: string) returns (valid: bool, error: ResultCode)
    requires IsCString(longName)
    ensures valid == IsValidName(longName)
    ensures !valid ==>
              && error in {EMPTY_FILENAME, FILENAME_TOO_LONG, FILENAME_CONTAINS_FORBIDDEN_CHARACTERS}
              && (error == EMPTY_FILENAME <==> longName == "")
              && (error == FILENAME_TOO_LONG <==> 255 < |longName|)
  {
    valid, error := false, SUCCESS;
    if longName == "" {
      error := EMPTY_FILENAME;
      return;
    }
    if |longName| > MaxFilenameLength {
      error := FILENAME_TOO_LONG;
      return;
    }
    var forbidden := ContainsForbiddenCharacter(longName);
    if forbidden {
      error := FILENAME_CONTAINS_FORBIDDEN_CHARACTERS;
      return;
    }
    valid := true;
  }

  // ---------------------------------------------------------------- 8.3 names

  ghost predicate IsCapital(s: string)
  {
    forall i :: 0 <= i < |s| ==> !('a' <= s[i] <= 'z') && !IsForbidden(s[i])
  }

  ghost predicate FitsEightDotThree(stem: string, extension: string)
  {
    |stem| <= 8 && |extension| <= 3 && '.' !in stem && IsCapital(stem) && IsCapital(extension)
  }

  /** The name can stand in an entry as it is: nothing in it is lower case or forbidden there, it has one
      period at most, and its parts fit. */
  ghost predicate IsEightDotThree(longName: string)
  {
    forall stem, extension :: SplitsAt(longName, stem, extension) ==> FitsEightDotThree(stem, extension)
  }

  lemma NoPeriodBehind(longName: string, stem: string, extension: string, i: nat)
    requires SplitsAt(longName, stem, extension) && |stem| < i < |longName|
    ensures longName[i] != '.'
  {
    assert longName[i] == extension[i - |stem| - 1];
  }

  lemma SplitUnique(longName: string, a: string, b: string, c: string, d: string)
    requires SplitsAt(longName, a, b) && SplitsAt(longName, c, d)
    ensures a == c && b == d
  {
    if |a| < |longName| && |c| < |longName| {
      assert longName[|a|] == '.' && longName[|c|] == '.';
      if |a| < |c| {
        NoPeriodBehind(longName, a, b, |c|);
      } else if |c| < |a| {
        NoPeriodBehind(longName, c, d, |a|);
      }
      assert longName[..|a|] == a && longName[..|c|] == c;
      assert longName[|a| + 1..] == b && longName[|c| + 1..] == d;
    }
  }

  /** The name a `FAT32ShortFilename` holds that is made from a stem and an extension. */
  ghost function Scrubbed(stem: string, extension: string): ShortName
    requires 1 <= |PermissibleText(stem)| && |stem| <= 8
  {
    Parsed(PermissibleText(stem), PermissibleText(extension))
  }

  /** The part before the period is not dropped altogether.  (The search for a tail in an empty name would
      start before its first character.) */
  ghost predicate HasBase(longName: string)
  {
    forall stem, extension :: SplitsAt(longName, stem, extension) && FitsEightDotThree(stem, extension) ==>
      1 <= |PermissibleText(stem)|
  }

  lemma PartsAreCapital(longName: string, stem: string, extension: string)
    requires SplitsAt(longName, stem, extension)
    ensures IsCapital(longName) <==> IsCapital(stem) && IsCapital(extension)
    ensures |longName| == |stem| <==> '.' !in longName
    ensures |longName| == |stem| ==> longName == stem && extension == ""
    ensures |stem| < |longName| ==> |longName| == |stem| + 1 + |extension|
  {
    if |stem| < |longName| {
      assert longName[|stem|] == '.';
      assert stem == longName[..|stem|] && extension == longName[|stem| + 1..];
      assert forall i :: 0 <= i < |stem| ==> longName[i] == stem[i];
      assert forall i :: 0 <= i < |extension| ==> longName[|stem| + 1 + i] == extension[i];
      forall i | 0 <= i < |longName| && IsCapital(stem) && IsCapital(extension)
        ensures !('a' <= longName[i] <= 'z') && !IsForbidden(longName[i])
      {
        assert longName[i] == if i < |stem| then stem[i] else if i == |stem| then '.' else extension[i - |stem| - 1];
      }
    }
  }

  method CapitalsOnly(longName: string) returns (capital: bool)
    ensures capital == IsCapital(longName)
  {
    for i := 0 to |longName|
      invariant IsCapital(longName[..i])
    {
      ForbiddenIs(longName[i]);
      if IsLower(longName[i]) || longName[i] in Forbidden {
        return false;
      }
      assert longName[..i + 1] == longName[..i] + [longName[i]];
    }
    assert longName[..|longName|] == longName;
    return true;
  }

  /** Whether a name is an 8.3 name as it stands, and the short name it makes. */
  method Is8Dot3Filename(longName: string)
    returns (short: Option<ShortFilename>, ghost stem: string, ghost extension: string)
    requires HasBase(longName)
    ensures SplitsAt(longName, stem, extension)
    ensures short.Some? <==> FitsEightDotThree(stem, extension)
    ensures short.Some? ==>
              && fresh(short.value) && 1 <= |PermissibleText(stem)|
              && short.value.View() == Scrubbed(stem, extension)
  {
    hide PermissibleText, IsCapital, Parsed, IsParsed;
    var s, e := SplitAtLastPeriod(longName);
    stem, extension := s, e;
    PartsAreCapital(longName, s, e);
    if |longName| > 12 {
      return None, s, e;
    }
    var capital := CapitalsOnly(longName);
    if !capital {
      return None, s, e;
    }
    if |s| == |longName| {
      if |longName| <= 8 {
        var plain := new ShortFilename.FromParts(longName, "");
        return Some(plain), s, e;
      }
    }
    if '.' in s {
      return None, s, e;
    }
    if |s| > 8 {
      return None, s, e;
    }
    if |longName| - |s| > 4 {
      return None, s, e;
    }
    var parts := new ShortFilename.FromParts(s, e);
    return Some(parts), s, e;
  }

  // ---------------------------------------------------------------- what an 8.3 name reads back as

  /** Name and extension with a period between them, if there is an extension. */
  function Compacted(name: string, extension: string): string
  {
    name + if extension == "" then "" else "." + extension
  }

  ghost predicate NoSpaces(s: string)
  {
    forall i :: 0 <= i < |s| ==> s[i] as int !in {9, 10, 11, 12, 13, 32}
  }

  /** The number behind a tilde at the end has no leading zeros. */
  ghost predicate TailIsPlain(stem: string)
  {
    forall f: nat :: HasTailAt(stem, f) ==> stem[f + 1] != '0' || f + 2 == |stem|
  }

  lemma {:induction false} NothingDropped(s: string)
    requires IsCapital(s) && AllAllowed(s) && '.' !in s
    ensures PermissibleText(s) == s <==> NoSpaces(s)
    ensures |PermissibleText(s)| == |s| <==> NoSpaces(s)
  {
    hide ImageOf, IsAllowed, IsForbidden;
    if s != "" {
      var front, c := s[..|s| - 1], s[|s| - 1];
      NothingDropped(front);
      assert s == front + [c];
      CapitalKept(c);
      assert NoSpaces(s) <==> NoSpaces(front) && c as int !in {9, 10, 11, 12, 13, 32};
    }
  }

  lemma CapitalKept(c: char)
    requires !('a' <= c <= 'z') && !IsForbidden(c) && IsAllowed(c) && c != '.'
    ensures ImageOf(c) == if c as int in {9, 10, 11, 12, 13, 32} then "" else [c]
  {
  }

  /** Digits are the decimal text of their number exactly if they have no leading zero. */
  lemma DecimalOfDigits(digits: string)
    requires 1 <= |digits| && AllNumeric(digits)
    ensures |Decimal(Value(digits, 10))| <= |digits|
    ensures Decimal(Value(digits, 10)) == digits <==> digits[0] != '0' || |digits| == 1
  {
    var v := Value(digits, 10);
    DigitsBound(digits, |digits|);
    DecimalLength(v, |digits|);
    DecimalIsNumeral(v);
    if digits[0] != '0' || |digits| == 1 {
      NumeralUnique(digits, Decimal(v), v, 10);
    }
  }

  lemma TextBehind(front: string, a: string, b: string)
    ensures front + "~" + a == front + "~" + b <==> a == b
  {
    assert (front + "~" + a)[|front| + 1..] == a && (front + "~" + b)[|front| + 1..] == b;
  }

  lemma TailPutBackAt(name: string, extension: string, f: nat)
    requires 1 <= |name| <= 8 && HasTailAt(name, f)
    ensures var s := Parsed(name, extension);
            |s.Name()| <= |name| && (s.Name() == name <==> name[f + 1] != '0' || f + 2 == |name|)
  {
    hide Value, Decimal, Parsed;
    var digits := name[f + 1..];
    OnlyTail(name, f);
    DecimalOfDigits(digits);
    TextBehind(name[..f], Decimal(Value(digits, 10)), digits);
    assert name == name[..f] + "~" + digits;
  }

  /** A name with its tail taken off and put back is the same name exactly if the tail is plain. */
  lemma TailPutBack(name: string, extension: string)
    requires 1 <= |name| <= 8
    ensures var s := Parsed(name, extension);
            && |s.Name()| <= |name| && (s.Name() == name <==> TailIsPlain(name))
            && s.extension == extension
  {
    hide Value, Decimal, Parsed, HasTailAt;
    if f: nat :| HasTailAt(name, f) {
      OnlyTail(name, f);
      TailPutBackAt(name, extension, f);
    }
  }

  /** The names that come through as 8.3 names: no spaces in them, and no leading zeros in a number behind a
      tilde. */
  ghost predicate Survives(longName: string)
  {
    && NoSpaces(longName)
    && forall stem, extension :: SplitsAt(longName, stem, extension) ==> TailIsPlain(stem)
  }

  lemma PartsOfName(longName: string, stem: string, extension: string)
    requires SplitsAt(longName, stem, extension)
    ensures AllAllowed(longName) ==> AllAllowed(stem) && AllAllowed(extension)
    ensures NoSpaces(longName) <==> NoSpaces(stem) && NoSpaces(extension)
    ensures longName != "" ==>
              (longName[|longName| - 1] != '.' <==> |stem| == |longName| || extension != "")
  {
    if |stem| < |longName| {
      assert forall i :: 0 <= i < |stem| ==> longName[i] == stem[i];
      assert forall i :: 0 <= i < |extension| ==> longName[|stem| + 1 + i] == extension[i];
      assert longName[|stem|] == '.';
      assert forall i :: 0 <= i < |longName| ==>
        longName[i] == if i < |stem| then stem[i] else if i == |stem| then '.' else extension[i - |stem| - 1];
    }
  }

  lemma SameParts(a: string, b: string, stem: string, extension: string)
    requires |a| <= |stem| && |b| <= |extension|
    ensures a + "." + b == stem + "." + extension <==> a == stem && b == extension
    ensures |a| < |stem| + 1 + |extension|
  {
    if a + "." + b == stem + "." + extension {
      assert |a + "." + b| == |a| + 1 + |b|;
      assert (a + "." + b)[..|a|] == a && (stem + "." + extension)[..|stem|] == stem;
      assert (a + "." + b)[|a| + 1..] == b && (stem + "." + extension)[|stem| + 1..] == extension;
    }
  }

  /** An 8.3 name made into an entry and read from it is the same name exactly if it comes through. */
  lemma EightDotThreeReadsBack(longName: string, stem: string, extension: string)
    requires IsValidName(longName) && IsStripped(longName)
    requires SplitsAt(longName, stem, extension) && FitsEightDotThree(stem, extension)
    requires 1 <= |PermissibleText(stem)|
    ensures var s := Scrubbed(stem, extension);
            Compacted(s.Name(), s.extension) == longName <==> Survives(longName)
  {
    hide PermissibleText, Parsed, NoSpaces, TailIsPlain, AllAllowed, IsCapital;
    var s := Scrubbed(stem, extension);
    PartsOfName(longName, stem, extension);
    NothingDropped(stem);
    NothingDropped(extension);
    TailPutBack(PermissibleText(stem), PermissibleText(extension));
    SameParts(s.Name(), s.extension, stem, extension);
    SurvivesInParts(longName, stem, extension);
    if |stem| < |longName| {
      assert longName == stem + "." + extension;
    }
  }

  lemma SurvivesInParts(longName: string, stem: string, extension: string)
    requires SplitsAt(longName, stem, extension)
    ensures Survives(longName) <==> NoSpaces(stem) && NoSpaces(extension) && TailIsPlain(stem)
  {
    hide TailIsPlain, NoSpaces;
    PartsOfName(longName, stem, extension);
    forall a, b | SplitsAt(longName, a, b) ensures a == stem && b == extension {
      SplitUnique(longName, a, b, stem, extension);
    }
  }
}
