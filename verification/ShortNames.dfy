/** 8.3 names with numeric tails. */
module ShortNames {
  import opened Memory
  import opened Ctype
  import opened Numbers
  import opened FatAdapter
  import opened DirectorySlots

  const MostTail: nat := 999_999

  // ---------------------------------------------------------------- decimal numbers

  /** `v` in decimal, without leading zeros. */
  function Decimal(v: nat): (s: string)
    ensures 1 <= |s|
  {
    if v < 10 then [DigitChar(v)] else Decimal(v / 10) + [DigitChar(v % 10)]
  }

  lemma {:induction false} DecimalIsNumeral(v: nat)
    ensures IsNumeralFor(Decimal(v), v, 10)
    ensures 0 < v ==> Decimal(v)[0] != '0'
  {
    if 10 <= v {
      DecimalIsNumeral(v / 10);
      ValueSnoc(Decimal(v / 10), DigitChar(v % 10), 10);
    } else {
      var s := [DigitChar(v)];
      assert s[..0] == "";
    }
  }

  lemma {:induction false} DecimalIsDigits(v: nat)
    ensures forall i :: 0 <= i < |Decimal(v)| ==> IsDigit(Decimal(v)[i])
  {
    if 10 <= v {
      DecimalIsDigits(v / 10);
    }
  }

  function Pow10(k: nat): (p: nat)
    ensures 1 <= p
  {
    if k == 0 then 1 else 10 * Pow10(k - 1)
  }

  lemma {:induction false} DecimalLength(v: nat, k: nat)
    requires v < Pow10(k) && 1 <= k
    ensures |Decimal(v)| <= k
    decreases k
  {
    if 10 <= v {
      assert k != 1;
      DecimalLength(v / 10, k - 1);
    }
  }

  lemma TailFits(v: nat)
    ensures v <= MostTail ==> |Decimal(v)| <= 6
    ensures v < 10_000_000 ==> |Decimal(v)| <= 7
    ensures v < 10 ==> |Decimal(v)| == 1
  {
    assert Pow10(1) == 10 && Pow10(3) == 1000 && Pow10(6) == 1_000_000 && Pow10(7) == 10_000_000;
    if v <= MostTail {
      DecimalLength(v, 6);
    }
    if v < 10_000_000 {
      DecimalLength(v, 7);
    }
  }

  // ---------------------------------------------------------------- what the methods compute

  /** The state of a short file name. */
  datatype ShortName = ShortName(name: string, nameWithTail: string, extension: string, numericTail: Option<nat>)
  {
    /** The name before the extension. */
    function Name(): string
    {
      if numericTail.Some? then nameWithTail else name
    }
  }

  /** A tilde at `f` with nothing but digits, and at least one, behind it. */
  predicate HasTailAt(name: string, f: nat)
  {
    f + 1 < |name| && name[f] == '~' && forall j :: f < j < |name| ==> IsDigit(name[j])
  }

  /** The name cut to make room for a tilde and the digits within eight characters. */
  function Stem(name: string, digits: string): string
    requires |digits| <= 7
  {
    if |name| + |digits| + 1 > 8 then name[..7 - |digits|] else name
  }

  function WithTail(name: string, tail: nat): string
    requires |Decimal(tail)| <= 7
  {
    Stem(name, Decimal(tail)) + "~" + Decimal(tail)
  }

  /** `e` has the extension of `basis` and, up to a tilde, its name. */
  predicate IsDerivative(e: ShortName, basis: ShortName)
  {
    && e.extension == basis.extension
    && e.numericTail.Some? == basis.numericTail.Some?
    && if e.numericTail.None? then e.name == basis.name
       else exists k :: 0 <= k < |e.nameWithTail| && k < |basis.nameWithTail|
                        && e.nameWithTail[k] == '~' && e.nameWithTail[..k] == basis.nameWithTail[..k]
  }

  /** `s` is the name with its tail, if it has one, taken off. */
  ghost predicate IsParsed(s: ShortName, name: string, extension: string)
  {
    && s.extension == extension
    && (forall f: nat :: HasTailAt(name, f) ==>
          s.name == name[..f] && s.numericTail == Some(Value(name[f + 1..], 10)))
    && ((forall f: nat :: !HasTailAt(name, f)) ==> s.name == name && s.numericTail == None)
    && (s.numericTail.Some? ==>
          s.numericTail.value < 10_000_000 && |Decimal(s.numericTail.value)| <= 7
          && s.nameWithTail == WithTail(s.name, s.numericTail.value))
  }

  predicate AllNumeric(s: string)
  {
    forall i :: 0 <= i < |s| ==> IsDigit(s[i])
  }

  /** A run of at most seven digits is worth less than ten million. */
  lemma {:induction false} DigitsBound(s: string, k: nat)
    requires |s| <= k && AllNumeric(s)
    ensures Value(s, 10) < Pow10(k)
    decreases k
  {
    if s != "" {
      DigitsBound(s[..|s| - 1], k - 1);
    }
  }

  /** `strtol` reads a run of digits as the number it denotes. */
  lemma StrtolOfDigits(s: string)
    requires 1 <= |s| <= 7 && AllNumeric(s)
    ensures IsCString(s) && Clamp(Denotes(s, Split(s, 10))) == Value(s, 10) < 10_000_000
  {
    assert CharAt(s, 0) == s[0] && SpacesFrom(s, 0) == 0;
    WholeRun(s, 0, 10);
    assert s[0..|s|] == s;
    DigitsBound(s, 7);
    assert Pow10(3) == 1000 && Pow10(7) == 10_000_000;
  }

  /** The bytes up to the first space. */
  function Trimmed(bytes: seq<byte>): (s: string)
    ensures |s| <= |bytes|
    ensures bytes != [] && bytes[0] as int != 0x20 ==> 1 <= |s|
  {
    if bytes == [] || bytes[0] as int == 0x20 then "" else [bytes[0] as char] + Trimmed(bytes[1..])
  }

  /** What a name stands for: the name before its tail, and the tail. */
  ghost function Parsed(name: string, extension: string): (s: ShortName)
    requires 1 <= |name| <= 8
    ensures IsParsed(s, name, extension) && (s.numericTail.None? ==> s.nameWithTail == "")
  {
    if exists f: nat :: HasTailAt(name, f) then
      var f: nat :| HasTailAt(name, f);
      var tail := Value(name[f + 1..], 10);
      OnlyTail(name, f);
      StrtolOfDigits(name[f + 1..]);
      TailFits(tail);
      ShortName(name[..f], WithTail(name[..f], tail), extension, Some(tail))
    else ShortName(name, "", extension, None)
  }

  lemma OnlyTail(name: string, f: nat)
    requires HasTailAt(name, f)
    ensures forall g: nat :: HasTailAt(name, g) ==> g == f
    ensures name[f + 1..] != "" && AllNumeric(name[f + 1..])
  {
    forall g: nat | HasTailAt(name, g) ensures g == f {
      assert !IsDigit(name[f]) && !IsDigit(name[g]);
    }
  }

  lemma ParsedUnique(a: ShortName, b: ShortName, name: string, extension: string)
    requires IsParsed(a, name, extension) && IsParsed(b, name, extension)
    requires a.numericTail.None? ==> a.nameWithTail == ""
    requires b.numericTail.None? ==> b.nameWithTail == ""
    ensures a == b
  {
  }

  /** The name in a directory entry. */
  ghost function NameIn(entry: Slot): (s: ShortName)
    requires entry[0] as int != 0x20
  {
    Parsed(Trimmed(entry[..8]), Trimmed(entry[8..11]))
  }

  class ShortFilename {
    var name: string
    var nameWithTail: string
    var extension: string
    var numericTail: Option<nat>

    ghost function View(): ShortName
      reads this
    {
      ShortName(name, nameWithTail, extension, numericTail)
    }

    /** A name as it stands in a directory entry: up to eight and three bytes, padded with spaces. */
    constructor FromCompact(entry: Slot)
      requires entry[0] as int != 0x20
      ensures View() == NameIn(entry)
    {
      name, extension := Trimmed(entry[..8]), Trimmed(entry[8..11]);
      nameWithTail, numericTail := "", None;
      new;
      DetectNumericTail();
      GenerateFilenameWithTail();
      ParsedUnique(View(), NameIn(entry), Trimmed(entry[..8]), Trimmed(entry[8..11]));
    }

    /** A name made from its parts, whose characters are dropped or replaced as needed. */
    constructor FromParts(n: string, e: string)
      requires 1 <= |Front(PermissibleText(n), 8)|
      ensures View() == Parsed(Front(PermissibleText(n), 8), Front(PermissibleText(e), 3))
    {
      nameWithTail, numericTail := "", None;
      new;
      var lossyName, lossyExtension;
      name, lossyName := TakePermissible(n, 8);
      extension, lossyExtension := TakePermissible(e, 3);
      DetectNumericTail();
      GenerateFilenameWithTail();
      ParsedUnique(View(), Parsed(Front(PermissibleText(n), 8), Front(PermissibleText(e), 3)),
                   Front(PermissibleText(n), 8), Front(PermissibleText(e), 3));
    }

    /** A name without a tail. */
    constructor Plain(n: string, e: string)
      ensures View() == ShortName(n, "", e, None)
    {
      name, nameWithTail, extension, numericTail := n, "", e, None;
    }

    /** Takes a numeric tail off the name. */
    method DetectNumericTail()
      requires 1 <= |name| <= 8
      modifies this`name, this`numericTail
      ensures forall f: nat :: HasTailAt(old(name), f) ==>
                name == old(name)[..f] && numericTail == Some(Value(old(name)[f + 1..], 10))
                && Value(old(name)[f + 1..], 10) < 10_000_000
      ensures (forall f: nat :: !HasTailAt(old(name), f)) ==> name == old(name) && numericTail == None
      ensures numericTail.Some? ==> numericTail.value < 10_000_000
    {
      numericTail := None;
      var frontOfNumber: nat := |name| - 1;
      while frontOfNumber > 0
        invariant frontOfNumber < |name|
        invariant forall j :: frontOfNumber < j < |name| ==> IsDigit(name[j])
      {
        if !IsDigit(name[frontOfNumber]) {
          break;
        }
        frontOfNumber := frontOfNumber - 1;
      }
      forall f: nat | HasTailAt(name, f) ensures f == frontOfNumber {
        assert !IsDigit(name[f]);
      }
      if frontOfNumber == |name| - 1 || name[frontOfNumber] != '~' {
        return;
      }
      assert HasTailAt(name, frontOfNumber);
      var digits := name[frontOfNumber + 1..];
      StrtolOfDigits(digits);
      var value, unconverted := Strtol(digits, 10);
      numericTail := Some(value);
      name := name[..frontOfNumber];
    }

    /** Puts the tail behind the name, which is cut so that both fit into eight characters. */
    method GenerateFilenameWithTail()
      requires |name| <= 8 && (numericTail.Some? ==> numericTail.value < 10_000_000)
      modifies this`nameWithTail
      ensures numericTail.Some? ==>
                |Decimal(numericTail.value)| <= 7 && nameWithTail == WithTail(name, numericTail.value)
      ensures numericTail.None? ==> nameWithTail == old(nameWithTail)
    {
      if numericTail.Some? {
        var buffer := new char[32];
        RoomForWord(numericTail.value, 10);
        var ok, end := Itoa(numericTail.value, buffer, 10);
        var digits := buffer[..end];
        TailFits(numericTail.value);
        DecimalIsNumeral(numericTail.value);
        NumeralUnique(digits, Decimal(numericTail.value), numericTail.value, 10);
        nameWithTail := name;
        if |nameWithTail| + |digits| + 1 > 8 {
          var charsToErase := |nameWithTail| + |digits| + 1 - 8;
          nameWithTail := nameWithTail[..|nameWithTail| - charsToErase];
        }
        nameWithTail := nameWithTail + "~";
        nameWithTail := nameWithTail + digits;
      }
    }

    method AddNumericTail(tail: nat) returns (r: ResultCode)
      requires |name| <= 8
      modifies this`numericTail, this`nameWithTail
      ensures r == if 1 <= tail <= MostTail then SUCCESS else NUMERIC_TAIL_OUT_OF_RANGE
      ensures r != SUCCESS ==> View() == old(View())
      ensures r == SUCCESS ==>
                && |Decimal(tail)| <= 7
                && View() == old(View()).(numericTail := Some(tail), nameWithTail := WithTail(name, tail))
    {
      if tail < 1 || tail > MostTail {
        return NUMERIC_TAIL_OUT_OF_RANGE;
      }
      numericTail := Some(tail);
      GenerateFilenameWithTail();
      return SUCCESS;
    }

    method IsDerivativeOfBasisFilename(basis: ShortFilename) returns (derivative: bool)
      ensures derivative == IsDerivative(View(), basis.View())
    {
      if extension != basis.extension {
        return false;
      }
      if basis.numericTail.Some? != numericTail.Some? {
        return false;
      }
      if numericTail.None? {
        return name == basis.name;
      }
      var i := 0;
      while i < |nameWithTail| && i < |basis.nameWithTail|
        invariant 0 <= i <= |nameWithTail| && i <= |basis.nameWithTail|
        invariant nameWithTail[..i] == basis.nameWithTail[..i]
        invariant forall k :: 0 <= k < i ==> nameWithTail[k] != '~'
      {
        if nameWithTail[i] == '~' {
          return true;
        }
        if nameWithTail[i] != basis.nameWithTail[i] {
          forall k | i < k < |nameWithTail| && k < |basis.nameWithTail|
            ensures nameWithTail[..k] != basis.nameWithTail[..k]
          {
            assert nameWithTail[..k][i] != basis.nameWithTail[..k][i];
          }
          return false;
        }
        i := i + 1;
      }
      return false;
    }
  }

  // ---------------------------------------------------------------- conflicts

  /** A basis name as `GetBasisName` makes it when it adds a tail: the tail has one digit. */
  ghost predicate IsTailedBasis(basis: ShortName)
  {
    && |basis.name| <= 8 && basis.numericTail.Some? && basis.numericTail.value < 10
    && |Decimal(basis.numericTail.value)| <= 7 && basis.nameWithTail == WithTail(basis.name, basis.numericTail.value)
  }

  /** A name with a tail put behind it has that tail. */
  lemma TailIsFound(name: string, tail: nat)
    requires |name| <= 8 && 1 <= tail <= MostTail && |Decimal(tail)| <= 7
    ensures var k := |Stem(name, Decimal(tail))|;
            && k + |Decimal(tail)| + 1 <= 8 && HasTailAt(WithTail(name, tail), k)
            && WithTail(name, tail)[..k] == Stem(name, Decimal(tail)) == name[..k]
            && WithTail(name, tail)[k + 1..] == Decimal(tail)
            && Value(WithTail(name, tail)[k + 1..], 10) == tail
  {
    hide Decimal, Value, HasTailAt;
    var digits, stem := Decimal(tail), Stem(name, Decimal(tail));
    TailFits(tail);
    DecimalIsDigits(tail);
    DecimalIsNumeral(tail);
    TailBehindStem(stem, digits);
  }

  lemma TailBehindStem(stem: string, digits: string)
    requires 1 <= |digits| && AllNumeric(digits)
    ensures var whole := stem + "~" + digits;
            HasTailAt(whole, |stem|) && whole[..|stem|] == stem && whole[|stem| + 1..] == digits
  {
    var whole, k := stem + "~" + digits, |stem|;
    forall j | k < j < |whole| ensures IsDigit(whole[j]) {
      assert whole[j] == digits[j - k - 1];
    }
  }

  /** A stem that already fits is not cut again. */
  lemma StemStays(name: string, tail: nat)
    requires |name| <= 8 && 1 <= tail <= MostTail && |Decimal(tail)| <= 7
    ensures WithTail(Stem(name, Decimal(tail)), tail) == WithTail(name, tail)
  {
    TailFits(tail);
  }

  /** An entry that has the very name the basis gets with tail `i` is a derivative with tail `i`. */
  lemma ConflictIsDerivative(e: ShortName, basis: ShortName, i: nat, name: string, extension: string)
    requires IsTailedBasis(basis) && 1 <= i <= MostTail && |Decimal(i)| <= 7
    requires IsParsed(e, name, extension)
    requires name == WithTail(basis.name, i) && extension == basis.extension
    ensures IsDerivative(e, basis) && e.numericTail == Some(i)
  {
    var stem := Stem(basis.name, Decimal(i));
    var k := |stem|;
    TailIsFound(basis.name, i);
    StemStays(basis.name, i);
    assert e.name == stem && e.numericTail == Some(i) && e.nameWithTail == name;
    BasisStartsWith(basis, i);
    assert e.nameWithTail[k] == '~' && e.nameWithTail[..k] == stem;
  }

  /** An entry with the very name that a basis would get with tail `i` is recognised as standing in the
      way exactly if the basis already has a tail. */
  lemma ConflictIsSeen(basis: ShortName, i: nat)
    requires 1 <= i <= MostTail && |Decimal(i)| <= 7 && |basis.name| <= 8
    requires basis.numericTail.Some? ==> IsTailedBasis(basis)
    ensures (forall e :: IsParsed(e, WithTail(basis.name, i), basis.extension) ==> IsDerivative(e, basis))
            <==> basis.numericTail.Some?
  {
    TailIsFound(basis.name, i);
    if basis.numericTail.Some? {
      forall e | IsParsed(e, WithTail(basis.name, i), basis.extension) ensures IsDerivative(e, basis) {
        ConflictIsDerivative(e, basis, i, WithTail(basis.name, i), basis.extension);
      }
    } else {
      var e := Parsed(WithTail(basis.name, i), basis.extension);
      assert e.numericTail.Some?;
    }
  }

  lemma BasisStartsWith(basis: ShortName, i: nat)
    requires IsTailedBasis(basis) && 1 <= i <= MostTail && |Decimal(i)| <= 7
    ensures var stem := Stem(basis.name, Decimal(i));
            |stem| < |basis.nameWithTail| && basis.nameWithTail[..|stem|] == stem
  {
    TailFits(basis.numericTail.value);
    TailFits(i);
  }

  // ---------------------------------------------------------------- basis names

  const Forbidden: string := "\"*/:<>?\\|+,;=[]"

  /** What becomes of a character: dropped, kept or turned to upper case, or replaced. */
  datatype Permitted = Permitted(c: char, replaced: bool)

  function PermissibleCharacter(c: char): Permitted
  {
    if IsAlpha(c) then Permitted(if IsLower(c) then (c as int - 32) as char else c, false)
    else if IsSpace(c) || c == '.' then Permitted('\0', false)
    else if c !in Forbidden && c as int > 31 && c as int != 127 then Permitted(c, false)
    else Permitted('_', true)
  }

  ghost predicate IsForbidden(c: char)
  {
    c in {'"', '*', '/', ':', '<', '>', '?', '\\', '|', '+', ',', ';', '=', '[', ']'}
  }

  lemma ForbiddenIs(c: char)
    ensures c in Forbidden <==> IsForbidden(c)
  {
  }

  /** The characters that have no place in an 8.3 name. */
  ghost predicate HasNoPlace(c: char)
  {
    c as int <= 31 || c as int == 127 || IsForbidden(c)
  }

  /** White space and the period. */
  ghost predicate IsDropped(c: char)
  {
    c as int in {9, 10, 11, 12, 13, 32, 46}
  }

  /** What stands for a character in an 8.3 name: nothing, a capital letter, an underscore, or the character itself. */
  ghost function ImageOf(c: char): (r: string)
    ensures |r| <= 1
  {
    if IsDropped(c) then ""
    else if HasNoPlace(c) then "_"
    else if 'a' <= c <= 'z' then [(c as int - 32) as char]
    else [c]
  }

  ghost predicate IsLossy(c: char)
  {
    IsDropped(c) || HasNoPlace(c)
  }

  lemma ImageIs(c: char)
    ensures var p := PermissibleCharacter(c);
            && ImageOf(c) == (if p.c == '\0' then "" else [p.c])
            && (IsLossy(c) <==> p.c == '\0' || p.replaced)
  {
    ForbiddenIs(c);
  }

  /** The permissible form of a text: what stands for its characters, one behind the other. */
  ghost function PermissibleText(s: string): (r: string)
    ensures |r| <= |s|
  {
    if s == "" then "" else PermissibleText(s[..|s| - 1]) + ImageOf(s[|s| - 1])
  }

  ghost predicate SomeLossy(s: string)
  {
    exists i :: 0 <= i < |s| && IsLossy(s[i])
  }

  function Front(s: string, n: nat): string
  {
    if n < |s| then s[..n] else s
  }

  /** Takes over characters until there are `room` of them or the text ends. */
  method TakePermissible(text: string, room: nat) returns (taken: string, lossy: bool)
    ensures taken == Front(PermissibleText(text), room)
    ensures lossy ==> SomeLossy(text)
    ensures |text| <= room && SomeLossy(text) ==> lossy
  {
    hide PermissibleText, SomeLossy, PermissibleCharacter, ImageOf, IsLossy;
    taken, lossy := "", false;
    NothingTaken();
    var i := 0;
    assert text[..0] == "";
    while i < |text| && |taken| < room
      invariant 0 <= i <= |text| && |taken| <= i && |taken| <= room
      invariant taken == PermissibleText(text[..i])
      invariant lossy <==> SomeLossy(text[..i])
    {
      var p := PermissibleCharacter(text[i]);
      ImageIs(text[i]);
      OneMoreText(text, i);
      if p.c == '\0' {
        lossy := true;
      } else {
        taken := taken + [p.c];
        lossy := lossy || p.replaced;
      }
      OneMore(text, i);
      i := i + 1;
    }
    PermissiblePrefix(text, i);
    LossyPrefix(text, i);
    assert text[..|text|] == text;
  }

  lemma LossyPrefix(text: string, i: nat)
    requires i <= |text|
    ensures SomeLossy(text[..i]) ==> SomeLossy(text)
  {
    hide IsLossy;
    if SomeLossy(text[..i]) {
      var k :| 0 <= k < i && IsLossy(text[..i][k]);
      assert IsLossy(text[k]);
    }
  }

  lemma NothingTaken()
    ensures PermissibleText("") == "" && !SomeLossy("")
  {
  }

  lemma OneMoreText(text: string, i: nat)
    requires i < |text|
    ensures PermissibleText(text[..i + 1]) == PermissibleText(text[..i]) + ImageOf(text[i])
  {
    assert text[..i + 1][..i] == text[..i];
  }

  lemma OneMore(text: string, i: nat)
    requires i < |text|
    ensures SomeLossy(text[..i + 1]) <==> SomeLossy(text[..i]) || IsLossy(text[i])
  {
    hide IsLossy;
    if SomeLossy(text[..i]) {
      var k :| 0 <= k < i && IsLossy(text[..i][k]);
      assert IsLossy(text[..i + 1][k]);
    }
    if IsLossy(text[i]) {
      assert IsLossy(text[..i + 1][i]);
    }
    if SomeLossy(text[..i + 1]) {
      var k :| 0 <= k < i + 1 && IsLossy(text[..i + 1][k]);
      assert k < i ==> IsLossy(text[..i][k]);
    }
  }

  lemma {:induction false} PermissiblePrefix(text: string, i: nat)
    requires i <= |text|
    ensures PermissibleText(text[..i]) <= PermissibleText(text)
    decreases |text|
  {
    if i < |text| {
      assert text[..|text| - 1][..i] == text[..i];
      PermissiblePrefix(text[..|text| - 1], i);
    } else {
      assert text[..i] == text;
    }
  }

  /** The part of a long name before its last period, and the part behind it, if there is one. */
  predicate SplitsAt(name: string, stem: string, extension: string)
  {
    (stem == name && extension == "" && '.' !in name)
    || (name == stem + "." + extension && '.' !in extension)
  }

  method SplitAtLastPeriod(name: string) returns (stem: string, extension: string)
    ensures SplitsAt(name, stem, extension)
  {
    var at: nat := |name|;
    while 0 < at
      invariant at <= |name| && '.' !in name[at..]
    {
      if name[at - 1] == '.' {
        assert name == name[..at - 1] + "." + name[at..];
        return name[..at - 1], name[at..];
      }
      at := at - 1;
    }
    assert name[0..] == name;
    return name, "";
  }

  /** The basis name of a long name.  It gets the tail 1 exactly if something of the long name does not
      survive in it: a character dropped or replaced, or a part too long. */
  method GetBasisName(longName: string) returns (basis: ShortFilename, ghost stem: string, ghost extension: string)
    ensures fresh(basis) && SplitsAt(longName, stem, extension)
    ensures basis.name == Front(PermissibleText(stem), 8) && basis.extension == Front(PermissibleText(extension), 3)
    ensures basis.numericTail
            == if |stem| > 8 || |extension| > 3 || SomeLossy(stem) || SomeLossy(extension) then Some(1) else None
    ensures basis.numericTail.Some? ==> IsTailedBasis(basis.View())
    ensures basis.numericTail.None? ==> basis.nameWithTail == ""
  {
    var s, e := SplitAtLastPeriod(longName);
    stem, extension := s, e;
    var name, lossyName := TakePermissible(s, 8);
    var ext, lossyExtension := TakePermissible(e, 3);
    basis := new ShortFilename.Plain(name, ext);
    if lossyName || lossyExtension || |s| > 8 || |e| > 3 {
      var r := basis.AddNumericTail(1);
    }
  }
}
