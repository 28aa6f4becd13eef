/** Looking an entry up by its name and type. */
module NameSearch {
  import opened Memory
  import opened Ctype
  import opened FatAdapter
  import opened DirectorySlots
  import opened Directories
  import opened LongNames
  import opened ShortNames
  import opened NameConflicts

  datatype EntryType = VOLUME_INFORMATION | DIRECTORY | FILE

  predicate IsVolumeInformation(s: Slot)
  {
    InUse(s) && s[AttributeOffset] / 8 % 2 == 1
  }

  predicate IsOfType(s: Slot, t: EntryType)
  {
    match t
    case VOLUME_INFORMATION => IsVolumeInformation(s)
    case DIRECTORY => IsDirectoryEntry(s)
    case FILE => IsFileEntry(s)
  }

  /** The type an entry with these attributes is made as. */
  function TypeOf(attributes: byte): EntryType
  {
    if attributes / 8 % 2 == 1 then VOLUME_INFORMATION
    else if attributes / 16 % 2 == 1 then DIRECTORY
    else FILE
  }

  /** The types in terms of the bits of the attribute byte.  A directory that is also marked as a volume is of both
      types, but made as a volume; a system file is of none. */
  lemma TypeBits(s: Slot, low: nat, system: nat, volume: nat, directory: nat, high: nat)
    requires low < 4 && system < 2 && volume < 2 && directory < 2
    requires s[11] == low + 4 * system + 8 * volume + 16 * directory + 32 * high
    ensures IsOfType(s, FILE) <==> s[0] !in {0x00, 0xE5} && system == volume == directory == 0
    ensures IsOfType(s, DIRECTORY) <==> s[0] !in {0x00, 0xE5} && directory == 1
    ensures IsOfType(s, VOLUME_INFORMATION) <==> s[0] !in {0x00, 0xE5} && volume == 1
    ensures EntryTypeOf(s)
            == if volume == 1 then VOLUME_INFORMATION else if directory == 1 then DIRECTORY else FILE
  {
    var a := s[11] as int;
    assert a / 16 == directory + 2 * high && a / 8 == volume + 2 * (directory + 2 * high);
    assert a / 4 == system + 2 * (volume + 2 * (directory + 2 * high));
  }

  function EntryTypeOf(s: Slot): EntryType
  {
    TypeOf(s[AttributeOffset])
  }

  // ---------------------------------------------------------------- the name of an entry

  function AsText(bytes: seq<byte>): (s: string)
    ensures |s| == |bytes|
  {
    seq(|bytes|, i requires 0 <= i < |bytes| => bytes[i] as char)
  }

  /** A text without the spaces at its end. */
  function Stripped(s: string): string
  {
    if s != "" && s[|s| - 1] == ' ' then Stripped(s[..|s| - 1]) else s
  }

  /** Name and extension of an 8.3 name, with a period between them if there is an extension. */
  function CompactName(s: Slot): (name: string)
    ensures name == Trimmed(s[..8]) + if s[8..11] == [0x20, 0x20, 0x20] then "" else "." + Trimmed(s[8..11])
  {
    assert s[8..11] == [s[8], s[9], s[10]];
    Trimmed(s[..8])
    + if s[8] as char == ' ' && s[9] as char == ' ' && s[10] as char == ' ' then "" else "." + Trimmed(s[8..11])
  }

  /** The name of an entry: its long name, or else its label or its 8.3 name. */
  ghost function NameOf(item: Item): string
  {
    if Joined(item.longName) != "" then Joined(item.longName)
    else if IsVolumeInformation(item.entry) then Stripped(AsText(item.entry[..11]))
    else CompactName(item.entry)
  }

  method GetName(entry: Slot, lfn: seq<Slot>) returns (name: string)
    ensures name == NameOf(Item(entry, lfn))
  {
    name := GetLongName(lfn);
    if name == "" {
      if IsVolumeInformation(entry) {
        name := AsText(entry[..11]);
        ghost var whole := name;
        while name != "" && name[|name| - 1] == ' '
          invariant Stripped(name) == Stripped(whole)
          decreases |name|
        {
          name := name[..|name| - 1];
        }
      } else {
        name := CompactName(entry);
      }
    }
  }

  // ---------------------------------------------------------------- comparing

  function Upper(c: char): char
  {
    if IsLower(c) then (c as int - 32) as char else c
  }

  /** The same name but for upper and lower case. */
  ghost predicate SameName(a: string, b: string)
  {
    |a| == |b| && forall i :: 0 <= i < |a| ==> SameLetter(a[i], b[i])
  }

  /** The code of a character, or of its capital. */
  ghost function CapitalCode(c: char): int
  {
    c as int - if 'a' <= c <= 'z' then 32 else 0
  }

  /** Compares at most `count` characters but for case.  The first pair that differs decides, unless both texts
      end before it. */
  method Strnicmp(a: string, b: string, count: nat) returns (r: int, ghost at: nat)
    ensures at <= count
    ensures forall j :: 0 <= j < at ==> SameLetter(CharAt(a, j), CharAt(b, j)) && CharAt(a, j) != '\0'
    ensures r == if at == count then 0 else CapitalCode(CharAt(a, at)) - CapitalCode(CharAt(b, at))
    ensures at < count ==> (r == 0 <==> CharAt(a, at) == CharAt(b, at) == '\0')
    ensures at < count && r != 0 ==> !SameLetter(CharAt(a, at), CharAt(b, at))
  {
    at := 0;
    if count == 0 {
      return 0, 0;
    }
    var i := 0;
    while true
      invariant at == i < count
      invariant forall j :: 0 <= j < i ==> SameLetter(CharAt(a, j), CharAt(b, j)) && CharAt(a, j) != '\0'
      decreases count - i
    {
      var char1, char2 := Upper(CharAt(a, i)), Upper(CharAt(b, i));
      if char1 != char2 {
        return char1 as int - char2 as int, i;
      }
      if CharAt(a, i) == '\0' {
        return 0, i;
      }
      i := i + 1;
      at := i;
      if i == count {
        break;
      }
    }
    return 0, count;
  }

  /** As much of the name looked for as the search looks at. */
  function LookedFor(name: string): (s: string)
    ensures |name| <= MaxFilenameLength ==> s == name
  {
    if |name| <= MaxFilenameLength then name else name[..MaxFilenameLength]
  }

  /** The test of the search: the lengths first, then that many characters. */
  method EqualIgnoringCase(filename: string, filter: string) returns (equal: bool)
    requires '\0' !in filter
    ensures equal == SameName(filename, LookedFor(filter))
  {
    var count := if |filter| <= MaxFilenameLength then |filter| else MaxFilenameLength;
    ghost var name := LookedFor(filter);
    if |filename| != count {
      return false;
    }
    var r;
    ghost var at;
    r, at := Strnicmp(filename, filter, count);
    equal := r == 0;
    if at < |name| {
      assert filter[at] in filter && CharAt(filter, at) == name[at] && CharAt(filename, at) == filename[at];
    } else {
      forall j | 0 <= j < |name| ensures SameLetter(filename[j], name[j]) {
        assert CharAt(filename, j) == filename[j] && CharAt(filter, j) == name[j];
      }
    }
  }

  // ---------------------------------------------------------------- searching

  ghost predicate IsMatch(item: Item, t: EntryType, name: string)
  {
    IsOfType(item.entry, t) && SameName(NameOf(item), name)
  }

  ghost predicate NoMatch(items: seq<Item>, t: EntryType, name: string)
  {
    forall k :: 0 <= k < |items| ==> !IsMatch(items[k], t, name)
  }

  /** The first item of the type with the name. */
  ghost predicate FirstMatch(items: seq<Item>, t: EntryType, name: string, k: nat)
  {
    k < |items| && IsMatch(items[k], t, name) && NoMatch(items[..k], t, name)
  }

  /** The entry is of one of the types, and has the name if one is given. */
  ghost predicate IsSought(item: Item, types: set<EntryType>, filter: Option<string>)
  {
    && (exists t :: t in types && IsOfType(item.entry, t))
    && (filter.Some? ==> SameName(NameOf(item), LookedFor(filter.value)))
  }

  ghost predicate NoneSought(items: seq<Item>, types: set<EntryType>, filter: Option<string>)
  {
    forall k :: 0 <= k < |items| ==> !IsSought(items[k], types, filter)
  }

  ghost predicate FirstSought(items: seq<Item>, types: set<EntryType>, filter: Option<string>, k: nat)
  {
    k < |items| && IsSought(items[k], types, filter) && NoneSought(items[..k], types, filter)
  }

  /** A search for one type and a name. */
  lemma SoughtByName(items: seq<Item>, t: EntryType, name: string)
    requires |name| <= MaxFilenameLength
    ensures NoneSought(items, {t}, Some(name)) <==> NoMatch(items, t, name)
    ensures forall k :: FirstSought(items, {t}, Some(name), k) <==> FirstMatch(items, t, name, k)
  {
    forall item: Item
      ensures IsSought(item, {t}, Some(name)) <==> IsMatch(item, t, name)
    {
      assert t in {t};
    }
    forall k | 0 <= k <= |items| ensures NoneSought(items[..k], {t}, Some(name)) <==> NoMatch(items[..k], t, name) {
    }
    assert items[..|items|] == items;
  }

  lemma NoneYet(items: seq<Item>, item: Item, types: set<EntryType>, filter: Option<string>)
    requires NoneSought(items, types, filter) && !IsSought(item, types, filter)
    ensures NoneSought(items + [item], types, filter)
  {
  }

  lemma EntryFound(done: seq<Item>, item: Item, rest: seq<Item>, types: set<EntryType>, filter: Option<string>)
    requires NoneSought(done, types, filter) && IsSought(item, types, filter)
    ensures FirstSought(done + [item] + rest, types, filter, |done|)
  {
    assert (done + [item] + rest)[..|done|] == done;
  }

  lemma NothingSeen(types: set<EntryType>, filter: Option<string>)
    ensures NoneSought([], types, filter)
  {
  }

  lemma TypeIsSought(entry: Slot, types: set<EntryType>)
    ensures (exists t :: t in types && IsOfType(entry, t)) <==>
            || (VOLUME_INFORMATION in types && IsVolumeInformation(entry))
            || (DIRECTORY in types && IsDirectoryEntry(entry))
            || (FILE in types && IsFileEntry(entry))
  {
    hide IsVolumeInformation, IsDirectoryEntry, IsFileEntry;
    assert IsOfType(entry, VOLUME_INFORMATION) <==> IsVolumeInformation(entry);
    assert IsOfType(entry, DIRECTORY) <==> IsDirectoryEntry(entry);
    assert IsOfType(entry, FILE) <==> IsFileEntry(entry);
    if t :| t in types && IsOfType(entry, t) {
      assert t in {VOLUME_INFORMATION, DIRECTORY, FILE};
    }
  }

  /** Decides whether one entry is the one looked for. */
  method Matches(entry: Slot, lfn: seq<Slot>, types: set<EntryType>, filter: Option<string>) returns (match_: bool)
    requires filter.Some? ==> '\0' !in filter.value
    ensures match_ == IsSought(Item(entry, lfn), types, filter)
  {
    hide IsVolumeInformation, IsDirectoryEntry, IsFileEntry, IsOfType, NameOf, LookedFor, SameName;
    TypeIsSought(entry, types);
    if (VOLUME_INFORMATION in types && IsVolumeInformation(entry))
       || (DIRECTORY in types && IsDirectoryEntry(entry))
       || (FILE in types && IsFileEntry(entry))
    {
      if filter.None? {
        return true;
      }
      var filename := GetName(entry, lfn);
      match_ := EqualIgnoringCase(filename, filter.value);
    } else {
      match_ := false;
    }
  }

  /** The first entry of one of the types, whose name is the one given but for case if one is given. */
  method FindDirectoryEntry(directory: DirectoryCluster, types: set<EntryType>, filter: Option<string>)
    returns (r: ResultCode, found: bool, ghost k: nat)
    requires directory.Valid() && (filter.Some? ==> '\0' !in filter.value)
    ensures IsReadResult(r)
    ensures directory.adapter.device.reliable ==> r == SUCCESS
    ensures r == SUCCESS ==>
              if found then FirstSought(Listing(directory.Slots()), types, filter, k)
              else NoneSought(Listing(directory.Slots()), types, filter)
  {
    hide *;
    found, k := false, 0;
    ghost var items, done := Listing(directory.Slots()), [];
    NothingSeen(types, filter);
    var itr := new DirectoryIterator(directory);
    itr.RestAtStart();
    NothingInFront(items);
    r := itr.NextEntry();
    ReadResult(r);
    while r == SUCCESS && itr.location != END
      invariant r == SUCCESS ==> itr.Valid()
      invariant IsReadResult(r)
      invariant directory.adapter.device.reliable ==> r == SUCCESS
      invariant itr.directory == directory && !found
      invariant r == SUCCESS && itr.location == END ==> items == done
      invariant r == SUCCESS && itr.location != END ==>
                  && itr.location == MID && itr.Upcoming() < |directory.Slots()|
                  && items == done + ([Item(directory.Slots()[itr.Upcoming()], itr.lfnEntries)] + itr.Rest())
      invariant NoneSought(done, types, filter) && |done| <= |items|
      decreases |items| - |done|
    {
      ghost var item, rest := Item(directory.Slots()[itr.Upcoming()], itr.lfnEntries), itr.Rest();
      Reassociate(done, item, rest);
      var entry := itr.AsClusterEntry();
      if entry.Failure? {
        r := entry.code;
        ReadResult(r);
        return;
      }
      found := Matches(entry.value, itr.lfnEntries, types, filter);
      if found {
        EntryFound(done, item, rest, types, filter);
        k := |done|;
        return;
      }
      NoneYet(done, item, types, filter);
      done := done + [item];
      NothingBehind(done);
      r := itr.NextEntry();
      ReadResult(r);
    }
  }

  /** No two entries of the type have the same name. */
  ghost predicate DistinctNames(items: seq<Item>, t: EntryType)
  {
    forall j, k :: 0 <= j < k < |items| && IsOfType(items[j].entry, t) && IsOfType(items[k].entry, t) ==>
      !SameName(NameOf(items[j]), NameOf(items[k]))
  }

  /** An entry whose name was not found leaves names distinct. */
  lemma NamesStayDistinct(before: seq<Item>, after: seq<Item>, item: Item, t: EntryType)
    requires AddsOne(before, after, item) && DistinctNames(before, t) && NoMatch(before, t, NameOf(item))
    ensures DistinctNames(after, t)
  {
    var p :| 0 <= p <= |before| && after == before[..p] + [item] + before[p..];
    forall j, k | 0 <= j < k < |after| && IsOfType(after[j].entry, t) && IsOfType(after[k].entry, t)
      ensures !SameName(NameOf(after[j]), NameOf(after[k]))
    {
      assert after[j] == if j < p then before[j] else if j == p then item else before[j - 1];
      assert after[k] == if k < p then before[k] else if k == p then item else before[k - 1];
      if j == p {
        assert !IsMatch(before[k - 1], t, NameOf(item));
      } else if k == p {
        assert !IsMatch(before[j], t, NameOf(item));
      }
    }
  }

  /** Taking an entry away leaves names distinct. */
  lemma FewerStayDistinct(after: seq<Item>, created: seq<Item>, former: Item, t: EntryType)
    requires AddsOne(after, created, former) && DistinctNames(created, t)
    ensures DistinctNames(after, t)
  {
    var p :| 0 <= p <= |after| && created == after[..p] + [former] + after[p..];
    forall j, k | 0 <= j < k < |after| && IsOfType(after[j].entry, t) && IsOfType(after[k].entry, t)
      ensures !SameName(NameOf(after[j]), NameOf(after[k]))
    {
      assert created[if j < p then j else j + 1] == after[j];
      assert created[if k < p then k else k + 1] == after[k];
    }
  }

  /** And one whose name was found does not: the search is needed. */
  lemma TakenNameClashes(before: seq<Item>, after: seq<Item>, item: Item, t: EntryType)
    requires AddsOne(before, after, item) && IsOfType(item.entry, t) && !NoMatch(before, t, NameOf(item))
    ensures !DistinctNames(after, t)
  {
    var p :| 0 <= p <= |before| && after == before[..p] + [item] + before[p..];
    var k :| 0 <= k < |before| && IsMatch(before[k], t, NameOf(item));
    if k < p {
      assert after[k] == before[k] && after[p] == item;
    } else {
      assert after[k + 1] == before[k] && after[p] == item;
    }
  }
}
