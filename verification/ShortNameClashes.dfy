/** Inputs for which the short name of a new entry is in use already, or for which an absent tail is read. */
module ShortNameClashes {
  import opened Memory
  import opened Ctype
  import opened DirectorySlots
  import opened ShortNames
  import opened NameConflicts
  import opened NameRules
  import opened NameSearch
  import opened DirectoryOperations

  /** Letters, digits and the tilde are kept, in upper case. */
  ghost predicate IsKeptAs(c: char, u: char)
  {
    if 'a' <= c <= 'z' then u as int == c as int - 32 else u == c && ('A' <= c <= 'Z' || '0' <= c <= '9' || c == '~')
  }

  lemma KeptCharacter(c: char, u: char)
    requires IsKeptAs(c, u)
    ensures ImageOf(c) == [u] && !IsLossy(c)
  {
  }

  /** A text whose characters are all kept, in upper case. */
  lemma {:induction false} KeptText(s: string, u: string)
    requires |u| == |s|
    requires forall i :: 0 <= i < |s| ==> IsKeptAs(s[i], u[i])
    ensures PermissibleText(s) == u && !SomeLossy(s)
  {
    if s != "" {
      KeptText(s[..|s| - 1], u[..|u| - 1]);
      forall i | 0 <= i < |s| ensures !IsLossy(s[i]) && ImageOf(s[i]) == [u[i]] {
        KeptCharacter(s[i], u[i]);
      }
      assert u == u[..|u| - 1] + [u[|u| - 1]];
    }
  }

  lemma NamesAreKept()
    ensures PermissibleText("FOO") == "FOO" && PermissibleText("foo") == "FOO" && !SomeLossy("foo")
    ensures PermissibleText("txt") == "TXT" && !SomeLossy("txt")
    ensures PermissibleText("foo~1") == "FOO~1" && !SomeLossy("foo~1")
    ensures PermissibleText("") == "" && !SomeLossy("")
  {
    KeptText("FOO", "FOO");
    KeptText("foo", "FOO");
    KeptText("txt", "TXT");
    KeptText("foo~1", "FOO~1");
    KeptText("", "");
  }

  /** How the names split. */
  lemma NamesSplit()
    ensures SplitsAt("FOO", "FOO", "") && FitsEightDotThree("FOO", "")
    ensures SplitsAt("foo.txt", "foo", "txt") && !FitsEightDotThree("foo", "txt")
    ensures SplitsAt("foo~1", "foo~1", "") && !FitsEightDotThree("foo~1", "")
  {
    assert "foo.txt" == "foo" + "." + "txt";
    assert IsLower("foo"[0]) && IsLower("foo~1"[0]);
  }

  /** A directory that holds just one entry. */
  ghost function Alone(name: string, extension: string, d: Details): seq<Item>
    requires |name| <= 8 && |extension| <= 3 && FitsBytes(name) && FitsBytes(extension) && d.Valid()
  {
    [Item(ClusterEntry(name, extension, d), [])]
  }

  /** What is known of that entry. */
  lemma AloneIs(name: string, extension: string, d: Details)
    requires 1 <= |name| <= 8 && |extension| <= 3 && IsPlain(name) && d.Valid()
    requires FitsBytes(name) && FitsBytes(extension) && d.attributes in {0x10, 0x20}
    ensures var e := ClusterEntry(name, extension, d);
            && IsNamed(e) && e[0] as int != 0x20 && NameIn(e) == Parsed(name, extension)
            && Trimmed(e[..8]) == name && Trimmed(e[8..11]) == extension
            && (IsOfType(e, FILE) <==> d.attributes == 0x20) && !IsVolumeInformation(e)
            && NameOf(Item(e, [])) == Compacted(name, extension)
    ensures NamesStart(Alone(name, extension, d))
  {
    var e := ClusterEntry(name, extension, d);
    EntryReadsBack(name, extension, d);
    EntryIsStandard(name, extension, d);
    CompactOf(name, extension, d);
    assert e[AttributeOffset] == DetailsIn(e).attributes == d.attributes;
  }

  lemma NamesAreValid()
    ensures IsValidName("FOO") && IsValidName("foo.txt") && IsValidName("foo~1")
    ensures IsStripped("FOO") && IsStripped("foo.txt") && IsStripped("foo~1")
  {
  }

  lemma NamesArePlain()
    ensures IsPlain("FOO") && IsPlain("FOO~1")
    ensures FitsBytes("FOO") && FitsBytes("FOO~1") && FitsBytes("TXT") && FitsBytes("")
  {
  }

  lemma NamesHaveBase()
    ensures HasBase("FOO") && HasBase("foo.txt") && HasBase("foo~1")
  {
    NamesAreKept();
    NamesSplit();
    forall stem, extension | SplitsAt("FOO", stem, extension) ensures stem == "FOO" {
      SplitUnique("FOO", stem, extension, "FOO", "");
    }
    forall stem, extension | SplitsAt("foo.txt", stem, extension) ensures stem == "foo" {
      SplitUnique("foo.txt", stem, extension, "foo", "txt");
    }
    forall stem, extension | SplitsAt("foo~1", stem, extension) ensures stem == "foo~1" {
      SplitUnique("foo~1", stem, extension, "foo~1", "");
    }
  }

  /** The one entry has its name. */
  lemma AloneInUse(name: string, extension: string, d: Details)
    requires 1 <= |name| <= 8 && |extension| <= 3 && IsPlain(name) && d.Valid()
    requires FitsBytes(name) && FitsBytes(extension) && d.attributes in {0x10, 0x20}
    ensures !NameUnused(Alone(name, extension, d), name, extension)
  {
    hide ClusterEntry, DetailsIn, IsNamed;
    AloneIs(name, extension, d);
    assert IsNamed(Alone(name, extension, d)[0].entry);
  }

  lemma NoTailIn(name: string, extension: string)
    requires 1 <= |name| <= 8 && '~' !in name
    ensures Parsed(name, extension) == ShortName(name, "", extension, None)
  {
    forall f: nat ensures !HasTailAt(name, f) {
    }
    assert IsParsed(Parsed(name, extension), name, extension);
  }

  /** The 8.3 name FOO, where a directory has it already: the check for a file of that name does not see it. */
  lemma EightDotThreeClashes(d: Details)
    requires d.Valid() && d.attributes == 0x10
    ensures FitsBytes("FOO") && FitsBytes("")
    ensures var items := Alone("FOO", "", d);
            && IsValidName("FOO") && IsStripped("FOO") && HasBase("FOO") && NamesStart(items)
            && NoMatch(items, FILE, "FOO") && !ShortNameClear("FOO", items)
  {
    hide ClusterEntry, NameUnused, IsNamed, IsOfType, IsPlain, PermissibleText, SomeLossy, IsStripped, SplitsAt,
         Parsed, NamesStart, HasBase, IsValidName, FitsEightDotThree, NameIn,
         TailAbsent, IsEightDotThree, IsTailed, IsShortNameFor, ShortNameClear;
    NamesAreValid();
    NamesHaveBase();
    NamesAreKept();
    NamesSplit();
    NoTailIn("FOO", "");
    NamesArePlain();
    AloneIs("FOO", "", d);
    AloneInUse("FOO", "", d);
    InParts("FOO", "FOO", "", Alone("FOO", "", d), ShortName("FOO", "", "", None));
  }

  lemma BasisOfFoo()
    ensures BasisOf("foo", "txt") == ShortName("FOO", "", "TXT", None) && !NeedsTail("foo", "txt")
    ensures |Decimal(1)| <= 7 && WithTail("FOO", 1) == "FOO~1"
    ensures BasisOf("foo~1", "") == ShortName("FOO~1", "", "", None)
  {
    NamesAreKept();
    FooWithTail();
  }

  lemma FooWithTail()
    ensures |Decimal(1)| <= 7 && WithTail("FOO", 1) == "FOO~1"
  {
    TailFits(1);
    assert Decimal(1) == "1" && Stem("FOO", "1") == "FOO";
    assert "FOO" + "~" == "FOO~" && "FOO~" + "1" == "FOO~1";
  }

  /** The name foo.txt, where an entry has the 8.3 name FOO~1.TXT: it needs no tail and gets that very name. */
  lemma UntailedNameClashes(d: Details)
    requires d.Valid() && d.attributes == 0x20
    ensures FitsBytes("FOO~1") && FitsBytes("TXT")
    ensures var items := Alone("FOO~1", "TXT", d);
            && IsValidName("foo.txt") && IsStripped("foo.txt") && HasBase("foo.txt") && NamesStart(items)
            && NoMatch(items, FILE, "foo.txt") && !TailAbsent("foo.txt", items) && !ShortNameClear("foo.txt", items)
  {
    hide ClusterEntry, NameUnused, IsNamed, IsOfType, IsPlain, PermissibleText, SomeLossy, IsStripped, SplitsAt,
         Parsed, NamesStart, HasBase, IsValidName, FitsEightDotThree, NameIn,
         BasisOf, NeedsTail, Decimal, WithTail, TailAbsent, SomeLacksTail, IsEightDotThree, IsTailed, IsShortNameFor,
         ShortNameClear;
    NamesAreValid();
    NamesHaveBase();
    NamesSplit();
    BasisOfFoo();
    NamesArePlain();
    AloneIs("FOO~1", "TXT", d);
    AloneInUse("FOO~1", "TXT", d);
    TailedIsNone(Alone("FOO~1", "TXT", d), "TXT");
    assert |Compacted("FOO~1", "TXT")| != |"foo.txt"|;
    InParts("foo.txt", "foo", "txt", Alone("FOO~1", "TXT", d), ShortName("FOO", "", "TXT", None));
  }

  /** An entry whose name reads with a tail is no derivative of a name without one. */
  lemma TailedIsNone(items: seq<Item>, extension: string)
    requires |items| == 1 && (IsNamed(items[0].entry) ==> items[0].entry[0] as int != 0x20)
    requires IsNamed(items[0].entry) ==> NameIn(items[0].entry) == Parsed("FOO~1", extension)
    ensures forall basis: ShortName :: basis.numericTail.None? ==> !SomeLacksTail(items, basis)
  {
    hide IsNamed, NameIn, IsParsed;
    assert HasTailAt("FOO~1", 3);
  }

  /** The name foo.txt, where a directory has the 8.3 name FOO.TXT: the search asks it for a tail. */
  lemma TailIsAbsent(d: Details)
    requires d.Valid() && d.attributes == 0x10
    ensures FitsBytes("FOO") && FitsBytes("TXT")
    ensures var items := Alone("FOO", "TXT", d);
            && IsValidName("foo.txt") && IsStripped("foo.txt") && HasBase("foo.txt") && NamesStart(items)
            && NoMatch(items, FILE, "foo.txt") && TailAbsent("foo.txt", items)
  {
    hide ClusterEntry, NameUnused, IsNamed, IsOfType, IsPlain, PermissibleText, SomeLossy, IsStripped, SplitsAt,
         Parsed, NamesStart, HasBase, IsValidName, FitsEightDotThree, NameIn,
         BasisOf, NeedsTail, Decimal, WithTail;
    NamesAreValid();
    NamesHaveBase();
    NamesSplit();
    BasisOfFoo();
    NoTailIn("FOO", "TXT");
    NamesArePlain();
    AloneIs("FOO", "TXT", d);
    var items := Alone("FOO", "TXT", d);
    assert LacksTail(items[0].entry, BasisOf("foo", "txt"));
    InParts("foo.txt", "foo", "txt", items, BasisOf("foo", "txt"));
  }

  /** The name foo~1, where a directory has the 8.3 name FOO~1: that one has a tail, and all is well. */
  lemma TailIsNotAbsent(d: Details)
    requires d.Valid() && d.attributes == 0x10
    ensures FitsBytes("FOO~1") && FitsBytes("")
    ensures !TailAbsent("foo~1", Alone("FOO~1", "", d))
  {
    hide ClusterEntry, NameUnused, IsNamed, IsOfType, IsPlain, PermissibleText, SomeLossy, IsStripped, SplitsAt,
         Parsed, NamesStart, FitsEightDotThree, NameIn, BasisOf, NeedsTail,
         TailAbsent, SomeLacksTail, IsEightDotThree, IsTailed, IsShortNameFor, ShortNameClear, NameOf,
         Compacted, Decimal, WithTail;
    NamesSplit();
    BasisOfFoo();
    NamesArePlain();
    AloneIs("FOO~1", "", d);
    TailedIsNone(Alone("FOO~1", "", d), "");
    InParts("foo~1", "foo~1", "", Alone("FOO~1", "", d), BasisOf("foo~1", ""));
  }
}
