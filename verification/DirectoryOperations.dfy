/** Creating and renaming entries: names, slots and clusters together. */
module DirectoryOperations {
  import opened Memory
  import opened Ctype
  import opened BlockDevices
  import opened FatLayout
  import opened Chains
  import opened FatAdapter
  import opened Volumes
  import opened BlockSequences
  import opened EntryFields
  import opened FatFile
  import opened DirectorySlots
  import opened ClusterSlots
  import opened Directories
  import opened LongNames
  import opened ShortNames
  import opened NameConflicts
  import opened NameRules
  import opened NameSearch

  // ---------------------------------------------------------------- the new entry

  /** What an entry says besides its name: attributes, seven bytes of time stamps, the first cluster,
      four more bytes of time stamps, and the size. */
  datatype Details = Details(attributes: byte, stamps: seq<byte>, first: nat, lastWrite: seq<byte>, size: nat)
  {
    predicate Valid()
    {
      |stamps| == 7 && |lastWrite| == 4 && first < 0x1_0000_0000 && size < 0x1_0000_0000
      && attributes != LongFilenameAttribute
    }
  }

  predicate FitsBytes(s: string)
  {
    forall i :: 0 <= i < |s| ==> s[i] as int < 0x100 && s[i] != ' '
  }

  /** A name padded with spaces. */
  function Padded(s: string, n: nat): (r: seq<byte>)
    requires |s| <= n && FitsBytes(s)
    ensures |r| == n
  {
    seq(n, i requires 0 <= i < n => if i < |s| then s[i] as int else 0x20)
  }

  function ClusterEntry(name: string, extension: string, d: Details): Slot
    requires |name| <= 8 && |extension| <= 3 && FitsBytes(name) && FitsBytes(extension) && d.Valid()
  {
    Padded(name, 8) + Padded(extension, 3) + [d.attributes, 0] + d.stamps
    + Encode16(d.first / 0x1_0000) + d.lastWrite + Encode16(d.first % 0x1_0000) + Encode32(d.size)
  }

  /** The details an entry holds. */
  function DetailsIn(s: Slot): Details
  {
    Details(s[11], s[13..20], FirstClusterOf(s, 0), s[22..26], SizeOf(s, 0))
  }

  lemma {:induction false} TrimmedPadded(s: string, n: nat)
    requires |s| <= n && FitsBytes(s)
    ensures Trimmed(Padded(s, n)) == s
    decreases |s|
  {
    if s != "" {
      assert Padded(s, n)[1..] == Padded(s[1..], n - 1);
      TrimmedPadded(s[1..], n - 1);
      assert s == [s[0]] + s[1..];
    }
  }

  /** The entry gives back its name and its details. */
  lemma EntryReadsBack(name: string, extension: string, d: Details)
    requires |name| <= 8 && |extension| <= 3 && FitsBytes(name) && FitsBytes(extension) && d.Valid()
    ensures var s := ClusterEntry(name, extension, d);
            && Trimmed(s[..8]) == name && Trimmed(s[8..11]) == extension && DetailsIn(s) == d
            && (name != "" ==> s[0] == name[0] as int)
  {
    var s := ClusterEntry(name, extension, d);
    TrimmedPadded(name, 8);
    TrimmedPadded(extension, 3);
    assert s[..8] == Padded(name, 8) && s[8..11] == Padded(extension, 3);
    assert s[13..20] == d.stamps && s[22..26] == d.lastWrite;
    DecodeEncode16(d.first / 0x1_0000);
    DecodeEncode16(d.first % 0x1_0000);
    DecodeEncode32(d.size);
    assert s[20..22] == Encode16(d.first / 0x1_0000) && s[26..28] == Encode16(d.first % 0x1_0000);
    assert s[28..32] == Encode32(d.size);
  }

  // ---------------------------------------------------------------- the short name

  /** Something of the long name does not survive in an 8.3 name. */
  ghost predicate NeedsTail(stem: string, extension: string)
  {
    |stem| > 8 || |extension| > 3 || SomeLossy(stem) || SomeLossy(extension)
  }

  /** The basis name of a long name in its parts. */
  ghost function BasisOf(stem: string, extension: string): ShortName
  {
    var name := Front(PermissibleText(stem), 8);
    if NeedsTail(stem, extension) then
      TailFits(1);
      ShortName(name, WithTail(name, 1), Front(PermissibleText(extension), 3), Some(1))
    else ShortName(name, "", Front(PermissibleText(extension), 3), None)
  }

  /** The search for a tail of the basis comes upon an entry that should have one and has not. */
  ghost predicate TailAbsent(longName: string, items: seq<Item>)
  {
    exists stem, extension ::
      SplitsAt(longName, stem, extension) && !FitsEightDotThree(stem, extension)
      && SomeLacksTail(items, BasisOf(stem, extension))
  }

  /** The name gets a tail to set it apart. */
  ghost predicate IsTailed(longName: string)
  {
    forall stem, extension :: SplitsAt(longName, stem, extension) ==>
      !FitsEightDotThree(stem, extension) && NeedsTail(stem, extension)
  }

  /** An 8.3 name stands for itself.  Any other name gets its basis with the least tail that is not taken,
      as long as there are tails. */
  ghost predicate IsShortFor(stem: string, extension: string, items: seq<Item>, short: ShortName)
  {
    if FitsEightDotThree(stem, extension) then
      1 <= |PermissibleText(stem)| && short == Scrubbed(stem, extension)
    else
      exists tail :: IsLeastUnused(items, BasisOf(stem, extension), tail)
                     && IsTailedTo(BasisOf(stem, extension), tail, short)
  }

  ghost predicate IsTailedTo(basis: ShortName, tail: nat, short: ShortName)
  {
    if tail <= MostTail then
      |Decimal(tail)| <= 7 && short == basis.(numericTail := Some(tail), nameWithTail := WithTail(basis.name, tail))
    else short == basis
  }

  ghost predicate IsShortNameFor(longName: string, items: seq<Item>, short: ShortName)
  {
    forall stem, extension :: SplitsAt(longName, stem, extension) ==> IsShortFor(stem, extension, items, short)
  }

  /** No entry has the short name that the new entry gets: an 8.3 name is not there yet; a name that needs no
      tail is not there with the tail 1; a name that needs one finds a tail that is not taken, or, when all are,
      is not there with the tail 1. */
  ghost predicate StaysClear(stem: string, extension: string, items: seq<Item>)
  {
    var basis := BasisOf(stem, extension);
    if FitsEightDotThree(stem, extension) then
      1 <= |PermissibleText(stem)|
      && NameUnused(items, Scrubbed(stem, extension).Name(), Scrubbed(stem, extension).extension)
    else if NeedsTail(stem, extension) then
      || (exists tail: nat :: 1 <= tail <= MostTail && !TailTaken(items, basis, tail))
      || NameUnused(items, basis.nameWithTail, basis.extension)
    else
      TailFits(1);
      NameUnused(items, WithTail(basis.name, 1), basis.extension)
  }

  ghost predicate ShortNameClear(longName: string, items: seq<Item>)
  {
    forall stem, extension :: SplitsAt(longName, stem, extension) ==> StaysClear(stem, extension, items)
  }

  /** There is only one way to split the name. */
  lemma InParts(longName: string, stem: string, extension: string, items: seq<Item>, short: ShortName)
    requires SplitsAt(longName, stem, extension)
    ensures IsEightDotThree(longName) <==> FitsEightDotThree(stem, extension)
    ensures IsTailed(longName) <==> !FitsEightDotThree(stem, extension) && NeedsTail(stem, extension)
    ensures IsShortNameFor(longName, items, short) <==> IsShortFor(stem, extension, items, short)
    ensures ShortNameClear(longName, items) <==> StaysClear(stem, extension, items)
    ensures TailAbsent(longName, items) <==>
              !FitsEightDotThree(stem, extension) && SomeLacksTail(items, BasisOf(stem, extension))
  {
    hide FitsEightDotThree, NeedsTail, IsShortFor, StaysClear, SomeLacksTail, BasisOf;
    forall a, b | SplitsAt(longName, a, b) ensures a == stem && b == extension {
      SplitUnique(longName, a, b, stem, extension);
    }
  }

  /** Without a tail in the basis, no tail is taken. */
  lemma UntailedTakesNone(items: seq<Item>, basis: ShortName)
    requires basis.numericTail.None?
    ensures forall i: nat :: !TailTaken(items, basis, i)
  {
    forall k | 0 <= k < |items| ensures TailInUse(items[k].entry, basis) == None {
      TailsAgree(items[k].entry, basis);
    }
  }

  /** The short name found is in use nowhere exactly if it stays clear. */
  lemma ClearExactlyIf(items: seq<Item>, stem: string, extension: string, tail: nat, short: ShortName)
    requires NamesStart(items) && !FitsEightDotThree(stem, extension)
    requires IsLeastUnused(items, BasisOf(stem, extension), tail)
    requires IsTailedTo(BasisOf(stem, extension), tail, short)
    ensures NameUnused(items, short.Name(), short.extension) <==> StaysClear(stem, extension, items)
  {
    hide FitsEightDotThree, PermissibleText, SomeLossy, TailTaken, NameUnused, WithTail, Decimal, NamesStart;
    TailFits(1);
    var basis := BasisOf(stem, extension);
    if !NeedsTail(stem, extension) {
      UntailedTakesNone(items, basis);
      FirstTail(items, basis, tail);
    } else if tail <= MostTail {
      UnusedTailUnusedName(items, basis, tail);
    }
  }

  /** With fewer entries than tails, a name that needs a tail stays clear. */
  lemma FewEntriesStayClear(items: seq<Item>, longName: string)
    requires IsTailed(longName) && |items| < MostTail
    ensures ShortNameClear(longName, items)
  {
    forall stem, extension | SplitsAt(longName, stem, extension) ensures StaysClear(stem, extension, items) {
      var basis := BasisOf(stem, extension);
      if forall tail: nat :: 1 <= tail <= MostTail ==> TailTaken(items, basis, tail) {
        RunOfTaken(items, basis, MostTail + 1);
        assert false;
      }
    }
  }

  predicate IsPlain(s: string)
  {
    forall i :: 0 <= i < |s| ==> 0x20 < s[i] as int < 0x7F
  }

  /** A permissible character of a name is a byte, no space, and no slot mark. */
  lemma PermissibleIsByte(c: char)
    requires IsAllowed(c)
    ensures ImageOf(c) != "" ==> 0x20 < ImageOf(c)[0] as int < 0x7F
  {
  }

  lemma {:induction false} PermissibleBytes(s: string)
    requires AllAllowed(s)
    ensures IsPlain(PermissibleText(s))
  {
    if s != "" {
      PermissibleBytes(s[..|s| - 1]);
      PermissibleIsByte(s[|s| - 1]);
    }
  }

  lemma PlainFits(s: string)
    requires IsPlain(s)
    ensures FitsBytes(s)
  {
  }

  lemma WithTailIsPlain(name: string, tail: nat)
    requires IsPlain(name) && |name| <= 8 && |Decimal(tail)| <= 7
    ensures 1 <= |WithTail(name, tail)| <= 8 && IsPlain(WithTail(name, tail))
  {
    DecimalIsDigits(tail);
  }

  lemma EntryIsStandard(name: string, extension: string, d: Details)
    requires 1 <= |name| <= 8 && |extension| <= 3 && d.Valid()
    requires IsPlain(name) && FitsBytes(name) && FitsBytes(extension)
    ensures IsStandard(ClusterEntry(name, extension, d))
  {
    EntryReadsBack(name, extension, d);
  }

  /** A name and an extension in eight and three plain characters. */
  ghost predicate IsUsable(s: ShortName)
  {
    && 1 <= |s.Name()| <= 8 && IsPlain(s.Name()) && FitsBytes(s.Name())
    && |s.extension| <= 3 && FitsBytes(s.extension)
  }

  lemma FrontIsPlain(s: string, n: nat)
    requires AllAllowed(s)
    ensures IsPlain(Front(PermissibleText(s), n)) && FitsBytes(Front(PermissibleText(s), n))
    ensures |Front(PermissibleText(s), n)| <= n
  {
    PermissibleBytes(s);
  }

  /** An 8.3 name can be written as it is. */
  lemma ScrubbedIsUsable(stem: string, extension: string)
    requires AllAllowed(stem) && AllAllowed(extension) && FitsEightDotThree(stem, extension)
    requires 1 <= |PermissibleText(stem)|
    ensures IsUsable(Scrubbed(stem, extension))
  {
    hide PermissibleText, Parsed, AllAllowed, FitsBytes;
    var name, s := PermissibleText(stem), Scrubbed(stem, extension);
    PermissibleBytes(stem);
    PermissibleBytes(extension);
    PlainFits(PermissibleText(extension));
    if f: nat :| HasTailAt(name, f) {
      WithTailIsPlain(name[..f], s.numericTail.value);
    }
    PlainFits(s.Name());
  }

  lemma TailedIsUsable(stem: string, extension: string, tail: nat, short: ShortName)
    requires AllAllowed(stem) && AllAllowed(extension) && 1 <= tail
    requires IsTailedTo(BasisOf(stem, extension), tail, short)
    requires NeedsTail(stem, extension) || tail == 1
    ensures IsUsable(short)
  {
    hide PermissibleText, NeedsTail, AllAllowed, Decimal, FitsBytes;
    TailFits(1);
    FrontIsPlain(stem, 8);
    FrontIsPlain(extension, 3);
    WithTailIsPlain(Front(PermissibleText(stem), 8), if tail <= MostTail then tail else 1);
    PlainFits(short.Name());
  }

  /** The least tail not taken is 1 when the basis has none. */
  lemma FirstTail(items: seq<Item>, basis: ShortName, tail: nat)
    requires IsLeastUnused(items, basis, tail) && forall i: nat :: !TailTaken(items, basis, i)
    ensures tail == 1
  {
    assert !TailTaken(items, basis, 1);
  }

  lemma PartsAreAllowed(longName: string, stem: string, extension: string)
    requires IsValidName(longName) && SplitsAt(longName, stem, extension)
    ensures AllAllowed(stem) && AllAllowed(extension)
  {
    PartsOfName(longName, stem, extension);
  }

  lemma BasisIs(basis: ShortName, stem: string, extension: string)
    requires basis.name == Front(PermissibleText(stem), 8) && basis.extension == Front(PermissibleText(extension), 3)
    requires basis.numericTail == if NeedsTail(stem, extension) then Some(1) else None
    requires basis.numericTail.Some? ==> IsTailedBasis(basis)
    requires basis.numericTail.None? ==> basis.nameWithTail == ""
    ensures basis == BasisOf(stem, extension)
  {
  }

  lemma FoundTail(items: seq<Item>, stem: string, extension: string, tail: nat, short: ShortName)
    requires AllAllowed(stem) && AllAllowed(extension) && !FitsEightDotThree(stem, extension)
    requires IsLeastUnused(items, BasisOf(stem, extension), tail)
    requires IsTailedTo(BasisOf(stem, extension), tail, short)
    ensures IsUsable(short) && IsShortFor(stem, extension, items, short)
  {
    hide NeedsTail, AllAllowed, FitsEightDotThree, IsUsable, TailTaken, IsTailedTo, PermissibleText, WithTail;
    if !NeedsTail(stem, extension) {
      UntailedTakesNone(items, BasisOf(stem, extension));
      FirstTail(items, BasisOf(stem, extension), tail);
    }
    assert 1 <= tail;
    TailedIsUsable(stem, extension, tail, short);
  }

  /** The basis name with the least tail that is not taken. */
  method TailedName(directory: DirectoryCluster, longName: string)
    returns (r: ResultCode, absent: bool, short: ShortFilename, ghost stem: string, ghost extension: string)
    requires directory.Valid() && IsValidName(longName) && !IsEightDotThree(longName)
    requires NamesStart(Listing(directory.Slots()))
    ensures IsReadResult(r)
    ensures directory.adapter.device.reliable ==> r == SUCCESS
    ensures fresh(short) && SplitsAt(longName, stem, extension) && !FitsEightDotThree(stem, extension)
    ensures absent ==> r == SUCCESS
    ensures r == SUCCESS ==> absent == SomeLacksTail(Listing(directory.Slots()), BasisOf(stem, extension))
    ensures r == SUCCESS && !absent ==>
              && IsUsable(short.View()) && IsShortFor(stem, extension, Listing(directory.Slots()), short.View())
              && (NameUnused(Listing(directory.Slots()), short.View().Name(), short.View().extension)
                  <==> StaysClear(stem, extension, Listing(directory.Slots())))
  {
    hide DirectoryOn, SlotsOf, Listing, PermissibleText, NameUnused, TailTaken, SomeLacksTail, FitsEightDotThree,
         NamesStart, AllAllowed, IsUsable, WithTail, IsShortFor, StaysClear;
    ghost var items, tail := Listing(directory.Slots()), 0;
    short, stem, extension := GetBasisName(longName);
    InParts(longName, stem, extension, items, short.View());
    PartsAreAllowed(longName, stem, extension);
    BasisIs(short.View(), stem, extension);
    r, absent, tail := InsureShortFilenameDoesNotConflict(directory, short);
    if r == SUCCESS && !absent {
      FoundTail(items, stem, extension, tail, short.View());
      ClearExactlyIf(items, stem, extension, tail, short.View());
    }
  }

  /** The short name for a long one. */
  method ShortNameFor(directory: DirectoryCluster, longName: string)
    returns (r: ResultCode, absent: bool, short: ShortFilename, eight: bool)
    requires directory.Valid() && IsValidName(longName) && HasBase(longName)
    requires NamesStart(Listing(directory.Slots()))
    ensures IsReadResult(r)
    ensures directory.adapter.device.reliable ==> r == SUCCESS
    ensures fresh(short) && eight == IsEightDotThree(longName)
    ensures absent ==> r == SUCCESS
    ensures r == SUCCESS ==> absent == TailAbsent(longName, Listing(directory.Slots()))
    ensures r == SUCCESS && !absent ==>
              && IsUsable(short.View()) && IsShortNameFor(longName, Listing(directory.Slots()), short.View())
              && (NameUnused(Listing(directory.Slots()), short.View().Name(), short.View().extension)
                  <==> ShortNameClear(longName, Listing(directory.Slots())))
  {
    hide *;
    ghost var items, stem, extension := Listing(directory.Slots()), "", "";
    var plain;
    plain, stem, extension := Is8Dot3Filename(longName);
    PartsAreAllowed(longName, stem, extension);
    absent := false;
    if plain.Some? {
      r, short, eight := SUCCESS, plain.value, true;
      ReadResult(r);
      ScrubbedIsUsable(stem, extension);
      ScrubbedIsShort(stem, extension, items);
      InParts(longName, stem, extension, items, short.View());
      return;
    }
    eight := false;
    InParts(longName, stem, extension, items, AnyShort());
    r, absent, short, stem, extension := TailedName(directory, longName);
    InParts(longName, stem, extension, items, short.View());
  }

  ghost function AnyShort(): ShortName
  {
    ShortName("", "", "", None)
  }

  lemma ScrubbedIsShort(stem: string, extension: string, items: seq<Item>)
    requires FitsEightDotThree(stem, extension) && 1 <= |PermissibleText(stem)|
    ensures IsShortFor(stem, extension, items, Scrubbed(stem, extension))
    ensures NameUnused(items, Scrubbed(stem, extension).Name(), Scrubbed(stem, extension).extension)
            <==> StaysClear(stem, extension, items)
  {
  }

  // ---------------------------------------------------------------- creating

  /** What creating does to the slots and the listing. */
  lemma CreatedListing(before: seq<Slot>, added: seq<Slot>, at: nat, longName: seq<Slot>, entry: Slot)
    returns (name: seq<Slot>)
    requires EndsCleanly(before) && AllEnds(added) && IsRun(longName, entry)
    requires FirstRoom(before + added, at, |longName| + 2)
    ensures var after := WrittenAt(before + added, at, longName + [entry]);
            && EndsCleanly(after) && AddsOne(Listing(before), Listing(after), Item(entry, name))
            && |before| <= |after|
            && forall j :: 0 <= j < |before| && InUse(before[j]) ==> after[j] == before[j]
    ensures name == longName <==> at == 0 || !IsLong((before + added)[at - 1])
  {
    var room := before + added;
    EndsAppended(before, added);
    assert IsPlaceFor(room, at, |longName| + 1);
    name := CreatingAddsOne(room, at, longName, entry);
    EndMarkStays(room, at, longName + [entry]);
    forall j | 0 <= j < |before| && InUse(before[j])
      ensures WrittenAt(room, at, longName + [entry])[j] == before[j]
    {
      var n := at + |longName| + 1;
      assert room[j] == before[j] && !(at <= j < n);
      var written := room[..at] + (longName + [entry]) + room[n..];
      assert written[j] == room[j];
    }
  }

  /** Every long-name slot is followed by the next one of its run or by the entry. */
  ghost predicate RunsAreWhole(slots: seq<Slot>)
  {
    forall i :: 0 <= i < |slots| && IsLong(slots[i]) ==> ContinuesAt(slots, i + 1)
  }

  ghost predicate ContinuesAt(slots: seq<Slot>, i: nat)
  {
    i < |slots| && InUse(slots[i]) && (IsLong(slots[i]) ==> !IsFirstLong(slots[i]))
  }

  /** Nothing, or the slots of a long name from its end to its start, the first one flagged. */
  ghost predicate IsOneRun(lfn: seq<Slot>)
  {
    forall i :: 0 <= i < |lfn| ==> IsLong(lfn[i]) && (IsFirstLong(lfn[i]) <==> i == 0)
  }

  /** Writing a new run leaves runs whole. */
  lemma CreatingKeepsRunsWhole(before: seq<Slot>, added: seq<Slot>, at: nat, lfn: seq<Slot>, entry: Slot)
    requires AllEnds(added) && IsOneRun(lfn) && IsStandard(entry) && FirstRoom(before + added, at, |lfn| + 2)
    requires RunsAreWhole(before)
    ensures at == 0 || !IsLong((before + added)[at - 1])
    ensures RunsAreWhole(WrittenAt(before + added, at, lfn + [entry]))
  {
    hide FirstRoom, WrittenAt, IsLong, IsStandard, InUse, IsFirstLong, AllEnds;
    var room, run := before + added, lfn + [entry];
    AddedRunsWhole(before, added);
    BeforeVacant(room, at);
    RoomIsVacant(room, at, |lfn| + 2);
    var after := WrittenAt(room, at, run);
    WrittenIs(room, at, run);
    StandardIsNotLong(entry);
    assert run[|lfn|] == entry && after[at + |lfn|] == run[|lfn|];
    forall i | 0 <= i < |after| && IsLong(after[i]) ensures ContinuesAt(after, i + 1) {
      if at <= i <= at + |run| {
        var k := i - at;
        assert k < |lfn| && run[k] == lfn[k];
        assert run[k + 1] == if k + 1 < |lfn| then lfn[k + 1] else entry;
        assert after[at + (k + 1)] == run[k + 1];
        StandardIsNotLong(run[k + 1]);
      } else {
        assert ContinuesAt(room, i + 1);
      }
    }
  }

  lemma BeforeVacant(slots: seq<Slot>, at: nat)
    requires RunsAreWhole(slots)
    ensures at < |slots| && !InUse(slots[at]) ==> at == 0 || !IsLong(slots[at - 1])
  {
    assert 0 < at <= |slots| && IsLong(slots[at - 1]) ==> ContinuesAt(slots, at - 1 + 1);
  }

  lemma StandardIsNotLong(s: Slot)
    ensures (IsStandard(s) ==> InUse(s) && !IsLong(s)) && (IsLong(s) ==> InUse(s))
  {
  }

  /** What is where when a run is written over vacant slots. */
  lemma WrittenIs(slots: seq<Slot>, at: nat, run: seq<Slot>)
    requires at + |run| < |slots| && Vacant(slots, at, at + |run| + 1)
    ensures var after := WrittenAt(slots, at, run);
            && |after| == |slots| && !InUse(after[at + |run|]) && !IsLong(after[at + |run|])
            && (forall i :: 0 <= i < |slots| && !(at <= i <= at + |run|) ==> after[i] == slots[i])
            && forall k :: 0 <= k < |run| ==> after[at + k] == run[k]
  {
  }

  /** End marks behind the slots leave runs whole. */
  lemma AddedRunsWhole(before: seq<Slot>, added: seq<Slot>)
    requires AllEnds(added) && RunsAreWhole(before)
    ensures RunsAreWhole(before + added)
  {
    var room := before + added;
    forall i | 0 <= i < |room| && IsLong(room[i]) ensures ContinuesAt(room, i + 1) {
      assert i < |before| by {
        assert |before| <= i ==> IsUnusedAndEnd(added[i - |before|]);
      }
      assert room[i] == before[i] && ContinuesAt(before, i + 1);
      assert room[i + 1] == before[i + 1];
    }
  }

  /** Removing an entry with its whole run does so too. */
  lemma RemovingKeepsRunsWhole(slots: seq<Slot>, i: nat)
    requires i < |slots| && RunsAreWhole(slots)
    ensures RunsAreWhole(Removal(slots, RunStart(slots, i), i))
  {
    var from, after := RunStart(slots, i), Removal(slots, RunStart(slots, i), i);
    assert 0 == from || !IsLong(slots[from - 1]) by {
      StartOfRun(slots, i);
    }
    forall j | 0 <= j < |after| && IsLong(after[j]) ensures ContinuesAt(after, j + 1) {
      assert !(from <= j <= i) && after[j] == slots[j];
      assert ContinuesAt(slots, j + 1);
      assert after[j + 1] == slots[j + 1];
    }
  }

  /** In front of a run there is no long-name slot, or the run is flagged as starting here. */
  lemma {:induction false} StartOfRun(slots: seq<Slot>, i: nat)
    requires i < |slots|
    ensures var from := RunStart(slots, i);
            0 < from && IsLong(slots[from - 1]) ==> from < i && IsLong(slots[from]) && IsFirstLong(slots[from])
    decreases i
  {
    if 0 < i && IsLong(slots[i - 1]) && !IsFirstLong(slots[i - 1]) {
      StartOfRun(slots, i - 1);
    }
  }

  /** The directory can be worked on: it has slots, everything behind the first end mark is one, and short
      names do not start with a space. */
  ghost predicate IsOrderly(slots: seq<Slot>)
  {
    slots != [] && EndsCleanly(slots) && NamesStart(Listing(slots))
  }

  /** How many slots the search for room asks for: the long name's, the entry's, and one more. */
  ghost function SlotsNeeded(longName: string): nat
  {
    if IsEightDotThree(longName) then 2 else EntriesFor(|longName|) + 2
  }

  /** What creating asks of a name that is not taken, in clusters of `e` slots. */
  ghost predicate CanBeMade(slots: seq<Slot>, longName: string, e: nat)
  {
    HasBase(longName) && SearchIsSound(slots, SlotsNeeded(longName), e)
  }

  lemma PlaceForName(slots: seq<Slot>, longName: string, e: nat)
    requires CanBeMade(slots, longName, e)
    ensures HasBase(longName)
    ensures forall lfn :: IsLfnFor(lfn, longName) ==> SearchIsSound(slots, |lfn| + 2, e)
  {
    hide HasBase, SearchIsSound, EntriesFor, IsEightDotThree;
  }

  /** What a new entry for a long name is like: it has the details given, is of the type of its attributes unless it
      is a system file, and has the short name for the long one, which no entry has yet exactly if it stays clear. */
  ghost predicate IsNewEntry(entry: Slot, d: Details, longName: string, before: seq<Item>)
  {
    && IsStandard(entry) && entry[0] as int != 0x20 && DetailsIn(entry) == d
    && (IsOfType(entry, TypeOf(d.attributes)) <==>
          d.attributes / 16 % 2 == 1 || d.attributes / 8 % 2 == 1 || d.attributes / 4 % 2 == 0)
    && (exists short :: IsShortNameFor(longName, before, short) && HasName(entry, short))
    && (NameUnused(before, Trimmed(entry[..8]), Trimmed(entry[8..11])) <==> ShortNameClear(longName, before))
  }

  ghost predicate HasName(entry: Slot, short: ShortName)
  {
    Trimmed(entry[..8]) == short.Name() && Trimmed(entry[8..11]) == short.extension
  }

  lemma NamesStillStart(before: seq<Item>, after: seq<Item>, item: Item)
    requires NamesStart(before) && AddsOne(before, after, item) && item.entry[0] as int != 0x20
    ensures NamesStart(after)
  {
    var k :| 0 <= k <= |before| && after == before[..k] + [item] + before[k..];
    forall j | 0 <= j < |after| && IsNamed(after[j].entry) ensures after[j].entry[0] as int != 0x20 {
      assert after[j] == if j < k then before[j] else if j == k then item else before[j - 1];
    }
  }

  /** No two entries of the type have the same name, unless that was so before. */
  ghost predicate KeepsNamesDistinct(before: seq<Item>, after: seq<Item>, t: EntryType)
  {
    DistinctNames(before, t) ==> DistinctNames(after, t)
  }

  /** The name comes through: as an 8.3 name, or in long-name slots. */
  ghost predicate ReadsBack(longName: string, t: EntryType)
  {
    if IsEightDotThree(longName) then Survives(longName) && t != VOLUME_INFORMATION else AllPrintable(longName)
  }

  /** The new entry is read with the name given exactly if that comes through: of a long name one reads what can be
      shown. */
  ghost predicate ReadsAs(item: Item, longName: string, t: EntryType)
  {
    if IsEightDotThree(longName) then
      item.longName == [] && (t != VOLUME_INFORMATION ==> (NameOf(item) == longName <==> Survives(longName)))
    else Joined(item.longName) == Shown(longName)
  }

  lemma NewNameIsDistinct(before: seq<Item>, after: seq<Item>, item: Item, t: EntryType, longName: string)
    requires AddsOne(before, after, item) && NoMatch(before, t, longName) && IsValidName(longName)
    requires ReadsAs(item, longName, t)
    ensures ReadsBack(longName, t) ==>
              && NameOf(item) == longName && KeepsNamesDistinct(before, after, t)
              && IsTakenNow(after, item.entry, longName, t)
  {
    hide IsOfType;
    if ReadsBack(longName, t) {
      if DistinctNames(before, t) {
        NamesStayDistinct(before, after, item, t);
      }
      Contained(before, after, item);
    }
  }

  lemma Contained(before: seq<Item>, after: seq<Item>, item: Item)
    requires AddsOne(before, after, item)
    ensures exists k :: 0 <= k < |after| && after[k] == item
  {
    var k :| 0 <= k <= |before| && after == before[..k] + [item] + before[k..];
    assert after[k] == item;
  }

  /** Another entry of the type cannot get the name, whatever the case of its letters. */
  ghost predicate IsTakenNow(items: seq<Item>, entry: Slot, name: string, t: EntryType)
  {
    IsOfType(entry, t) ==> forall other :: SameName(name, other) ==> !NoMatch(items, t, other)
  }

  lemma NotTooLong(longName: string)
    requires IsValidName(longName)
    ensures |longName| <= MaxFilenameLength
  {
  }

  lemma FirstMatchIsMatch(items: seq<Item>, t: EntryType, name: string, k: nat)
    requires FirstMatch(items, t, name, k)
    ensures !NoMatch(items, t, name)
  {
  }

  /** What creating does for names when no long-name slot has been left over before. */
  ghost predicate NamesWell(before: seq<Slot>, after: seq<Slot>, item: Item, longName: string, t: EntryType)
  {
    RunsAreWhole(before) ==>
      && RunsAreWhole(after) && ReadsAs(item, longName, t)
      && (ReadsBack(longName, t) ==>
            && NameOf(item) == longName && KeepsNamesDistinct(Listing(before), Listing(after), t)
            && IsTakenNow(Listing(after), item.entry, longName, t))
  }

  /** Slots left by an attempt that did not come to its end: some clusters added, and the first `put` of the
      slots written.  The listing is as before, unless all of them were. */
  lemma FailedListing(before: seq<Slot>, added: seq<Slot>, at: nat, lfn: seq<Slot>, entry: Slot, put: nat,
                      after: seq<Slot>)
    returns (name: seq<Slot>)
    requires EndsCleanly(before) && AllEnds(added) && IsRun(lfn, entry) && put <= |lfn| + 1
    requires 0 < put ==> FirstRoom(before + added, at, |lfn| + 2)
    requires after == if put == 0 then before + added else Partly(before + added, at, lfn + [entry], put)
    ensures EndsCleanly(after)
    ensures if put == |lfn| + 1 then AddsOne(Listing(before), Listing(after), Item(entry, name))
            else Listing(after) == Listing(before)
  {
    hide FirstRoom, Listing, EndsCleanly, AllEnds, WrittenAt, AddsOne, IsPlaceFor, IsRun, IsLong;
    name := [];
    var room := before + added;
    EndsAppended(before, added);
    if 0 < put {
      RoomIsVacant(room, at, |lfn| + 2);
    }
    if put == |lfn| + 1 {
      name := CreatedListing(before, added, at, lfn, entry);
      EndMarkStays(room, at, lfn + [entry]);
      assert (lfn + [entry])[..put] == lfn + [entry];
    } else if 0 < put {
      RoomIsPlace(room, at, |lfn| + 1);
      RunIsLong(lfn, entry);
      assert (lfn + [entry])[..put] == lfn[..put];
      PartOfRunIsSkipped(room, at, lfn[..put], |lfn| + 1);
    }
  }

  lemma RoomIsPlace(slots: seq<Slot>, at: nat, n: nat)
    requires FirstRoom(slots, at, n + 1)
    ensures IsPlaceFor(slots, at, n)
  {
  }

  lemma RunIsLong(lfn: seq<Slot>, entry: Slot)
    requires IsRun(lfn, entry)
    ensures forall i :: 0 <= i < |lfn| ==> IsLong(lfn[i])
  {
  }

  /** What a call leaves in the directory when no link has stayed open: one item more if `written`, and else
      what was there. */
  ghost predicate LeavesListing(before: seq<Slot>, after: seq<Slot>, written: bool, item: Item)
  {
    EndsCleanly(after)
    && if written then AddsOne(Listing(before), Listing(after), item) else Listing(after) == Listing(before)
  }

  lemma NothingLeft(slots: seq<Slot>, item: Item)
    requires EndsCleanly(slots)
    ensures LeavesListing(slots, slots, false, item)
  {
  }

  lemma ListingLeft(before: seq<Slot>, after: seq<Slot>, written: bool, item: Item)
    requires EndsCleanly(after)
    requires if written then AddsOne(Listing(before), Listing(after), item) else Listing(after) == Listing(before)
    ensures LeavesListing(before, after, written, item)
  {
  }

  /** The name is valid, and no entry of the type has it. */
  method CheckName(directory: DirectoryCluster, longName: string, t: EntryType) returns (r: ResultCode, taken: bool)
    requires directory.Valid() && IsCString(longName)
    ensures IsNameError(r) || r == FILENAME_ALREADY_IN_USE || IsReadResult(r)
    ensures !IsValidName(longName) ==> IsNameError(r) && r != SUCCESS && !taken
    ensures directory.adapter.device.reliable && IsValidName(longName) ==>
              && taken == !NoMatch(Listing(directory.Slots()), t, longName)
              && (taken || r == SUCCESS)
    ensures taken ==> r == FILENAME_ALREADY_IN_USE && !NoMatch(Listing(directory.Slots()), t, longName)
    ensures r == SUCCESS ==> IsValidName(longName) && NoMatch(Listing(directory.Slots()), t, longName)
  {
    hide *;
    taken := false;
    var valid;
    valid, r := IsValid(longName);
    if !valid {
      NameErrors(longName, r);
      return;
    }
    NoTerminator(longName);
    NotTooLong(longName);
    var found;
    ghost var k;
    r, found, k := FindDirectoryEntry(directory, {t}, Some(longName));
    SoughtByName(Listing(directory.Slots()), t, longName);
    if r == SUCCESS && found {
      FirstMatchIsMatch(Listing(directory.Slots()), t, longName, k);
      r, taken := FILENAME_ALREADY_IN_USE, true;
    }
  }

  /** Creates an entry.  A name that is not valid, or that an entry of the type has already, changes nothing.
      Otherwise it chooses a short name, and writes the entry behind the long name's slots, of which an 8.3
      name has none.  On success the directory lists what it listed before and one new entry; and if no
      long-name slot was left over in the directory, names read back and stay distinct as `NamesWell` says.
      After a failure the listing is as before, unless the entry got to the device and only the cluster behind
      it could not be read or written; `written` says whether the entry is there. */
  method CreateEntry(directory: DirectoryCluster, longName: string, d: Details, garbage: Blocks)
    returns (r: ResultCode, absent: bool, ghost entry: Slot, ghost name: seq<Slot>, ghost taken: bool,
             ghost written: bool, ghost steps: seq<Step>)
    requires directory.Valid() && IsOrderly(directory.Slots())
    requires IsCString(longName) && IsStripped(longName) && d.Valid() && garbage.Valid()
    requires IsValidName(longName) && NoMatch(Listing(directory.Slots()), TypeOf(d.attributes), longName) ==>
               CanBeMade(directory.Slots(), longName, directory.entriesPerCluster)
    modifies directory.adapter.device, directory.adapter`lastEmptyClusterFound, directory`chain
    ensures directory.adapter.Valid() && old(directory.chain) <= directory.chain
    ensures IsNameError(r) || r in {FILENAME_ALREADY_IN_USE, TAIL_ABSENT} || IsReadResult(r) || IsPlacingResult(r)
    ensures !IsValidName(longName) ==> IsNameError(r) && !taken
    ensures !IsValidName(longName) || taken || absent ==>
              directory.adapter.device.storage == old(directory.adapter.device.storage)
    ensures directory.adapter.device.reliable && IsValidName(longName) ==>
              && taken == !NoMatch(old(Listing(directory.Slots())), TypeOf(d.attributes), longName)
              && (!taken ==> absent == TailAbsent(longName, old(Listing(directory.Slots()))))
              && (taken || absent || r == SUCCESS || NoRoom(directory, r, 0))
    ensures taken ==>
              && r == FILENAME_ALREADY_IN_USE
              && !NoMatch(old(Listing(directory.Slots())), TypeOf(d.attributes), longName)
    ensures absent ==> r == TAIL_ABSENT && TailAbsent(longName, old(Listing(directory.Slots())))
    ensures Confined(directory.adapter.layout, old(directory.adapter.device.storage), old(directory.chain),
                     directory.firstCluster, directory.adapter.device.storage, directory.chain)
    ensures Leads(old(directory.adapter.Fat()), Owned(old(directory.chain)), steps,
                  directory.adapter.Fat(), Owned(directory.chain))
    ensures r == SUCCESS || directory.adapter.device.reliable ==> !IsOpen(steps) && written == (r == SUCCESS)
    ensures !IsOpen(steps) ==>
              && directory.Valid()
              && LeavesListing(old(directory.Slots()), directory.Slots(), written, Item(entry, name))
              && (written ==> IsNewEntry(entry, d, longName, old(Listing(directory.Slots())))
                              && IsInPlace(old(directory.Slots()), directory.Slots(), entry, longName))
    ensures r == SUCCESS ==>
              && IsOrderly(directory.Slots()) && IsValidName(longName)
              && NoMatch(old(Listing(directory.Slots())), TypeOf(d.attributes), longName)
              && NamesWell(old(directory.Slots()), directory.Slots(), Item(entry, name), longName, TypeOf(d.attributes))
              && SlotsKept(old(directory.Slots()), directory.Slots())
  {
    hide *;
    entry, name, absent, written, steps := AnySlot(), [], false, false, [];
    directory.StartOfSearch();
    NoSteps(directory.adapter.Fat(), Owned(directory.chain));
    Orderly(directory.Slots());
    NothingLeft(directory.Slots(), Item(entry, name));
    r, taken := CheckName(directory, longName, TypeOf(d.attributes));
    if r != SUCCESS {
      return;
    }
    var short, eight;
    PlaceForName(directory.Slots(), longName, directory.entriesPerCluster);
    r, absent, short, eight := ShortNameFor(directory, longName);
    if absent {
      r := TAIL_ABSENT;
    }
    if r != SUCCESS {
      return;
    }
    var lfn := LfnSequenceFor(longName, eight, short, garbage);
    var s := EntryFor(short, d);
    entry := s;
    EntryIsNew(s, d, longName, Listing(directory.Slots()), short.View());
    r, name, written, steps := WriteNewEntry(directory, s, lfn, longName, d, short.View());
  }

  /** The last part of `CreateEntry`: writes the entry and its long-name slots. */
  method WriteNewEntry(directory: DirectoryCluster, s: Slot, lfn: seq<Slot>, ghost longName: string, ghost d: Details,
                       ghost short: ShortName)
    returns (r: ResultCode, ghost name: seq<Slot>, ghost written: bool, ghost steps: seq<Step>)
    requires directory.Valid() && IsOrderly(directory.Slots())
    requires SearchIsSound(directory.Slots(), |lfn| + 2, directory.entriesPerCluster)
    requires |lfn| + 2 <= MostLongEntries + 1
    requires IsLfnFor(lfn, longName) && HaveChecksum(lfn, ChecksumOf(s[..11])) && IsRun(lfn, s)
    requires IsStandard(s) && DetailsIn(s) == d && CompactName(s) == Compacted(short.Name(), short.extension)
    requires IsNewEntry(s, d, longName, Listing(directory.Slots()))
    requires IsValidName(longName) && IsStripped(longName)
    requires IsShortNameFor(longName, Listing(directory.Slots()), short)
    requires NoMatch(Listing(directory.Slots()), TypeOf(d.attributes), longName)
    modifies directory.adapter.device, directory.adapter`lastEmptyClusterFound, directory`chain
    ensures IsPlacingResult(r)
    ensures directory.adapter.Valid() && old(directory.chain) <= directory.chain
    ensures directory.adapter.device.reliable ==> r == SUCCESS || NoRoom(directory, r, 0)
    ensures Confined(directory.adapter.layout, old(directory.adapter.device.storage), old(directory.chain),
                     directory.firstCluster, directory.adapter.device.storage, directory.chain)
    ensures Leads(old(directory.adapter.Fat()), Owned(old(directory.chain)), steps,
                  directory.adapter.Fat(), Owned(directory.chain))
    ensures r == SUCCESS || directory.adapter.device.reliable ==> !IsOpen(steps) && written == (r == SUCCESS)
    ensures !IsOpen(steps) ==>
              && directory.Valid()
              && LeavesListing(old(directory.Slots()), directory.Slots(), written, Item(s, name))
              && (written ==> IsInPlace(old(directory.Slots()), directory.Slots(), s, longName))
    ensures r == SUCCESS ==>
              && IsOrderly(directory.Slots())
              && NamesWell(old(directory.Slots()), directory.Slots(), Item(s, name), longName, TypeOf(d.attributes))
              && SlotsKept(old(directory.Slots()), directory.Slots())
  {
    hide *;
    ghost var before := directory.Slots();
    Orderly(before);
    name, written := [], false;
    ghost var at, added, put;
    r, at, added, steps, put := directory.WriteLfnSequenceAndClusterEntry(s, lfn);
    if r != SUCCESS {
      RoomRanOut(directory, r, |lfn| + 2);
      if !IsOpen(steps) {
        written := put == |lfn| + 1;
        name := FailedListing(before, added, at, lfn, s, put, directory.Slots());
        ListingLeft(before, directory.Slots(), written, Item(s, name));
        if written {
          CreatedInPlace(before, added, at, lfn, s, directory.Slots(), longName);
        }
      }
      return;
    }
    written := true;
    name := CreatedListing(before, added, at, lfn, s);
    ListingLeft(before, directory.Slots(), written, Item(s, name));
    CreatedNames(before, added, at, lfn, Item(s, name), d, longName, short);
    CreatedOrderly(before, directory.Slots(), Item(s, name), d, longName);
    KeptFrom(before, directory.Slots());
    CreatedInPlace(before, added, at, lfn, s, directory.Slots(), longName);
  }

  /** There is room for no more: no cluster is free where the search looks, or the directory's clusters are
      too small for a long name. */
  ghost predicate NoRoom(directory: DirectoryCluster, r: ResultCode, c: nat)
    requires directory.adapter.Valid()
    reads directory, directory.adapter, directory.adapter.device
  {
    || (r == DEVICE_FULL && directory.adapter.NothingFreeBut(c))
    || (r == UNABLE_TO_FIND_EMPTY_BLOCK_OF_DIRECTORY_ENTRIES && 2 * directory.entriesPerCluster < MostLongEntries + 1)
  }

  lemma RoomRanOut(directory: DirectoryCluster, r: ResultCode, n: nat)
    requires directory.adapter.Valid() && n <= MostLongEntries + 1
    ensures r == DEVICE_FULL && directory.adapter.NothingFreeBut(0) ==> NoRoom(directory, r, 0)
    ensures r == UNABLE_TO_FIND_EMPTY_BLOCK_OF_DIRECTORY_ENTRIES && 2 * directory.entriesPerCluster < n ==>
              NoRoom(directory, r, 0)
  {
  }

  predicate IsNameError(r: ResultCode)
  {
    r in {EMPTY_FILENAME, FILENAME_TOO_LONG, FILENAME_CONTAINS_FORBIDDEN_CHARACTERS}
  }

  lemma NameErrors(longName: string, r: ResultCode)
    requires !IsValidName(longName) && r in {EMPTY_FILENAME, FILENAME_TOO_LONG, FILENAME_CONTAINS_FORBIDDEN_CHARACTERS}
    ensures IsNameError(r)
  {
  }

  lemma CreatedNames(before: seq<Slot>, added: seq<Slot>, at: nat, lfn: seq<Slot>, item: Item, d: Details,
                     longName: string, short: ShortName)
    requires AllEnds(added) && FirstRoom(before + added, at, |lfn| + 2)
    requires IsStandard(item.entry) && DetailsIn(item.entry) == d
    requires CompactName(item.entry) == Compacted(short.Name(), short.extension)
    requires IsValidName(longName) && IsStripped(longName) && IsLfnFor(lfn, longName)
    requires IsShortNameFor(longName, Listing(before), short)
    requires item.longName == lfn <==> at == 0 || !IsLong((before + added)[at - 1])
    requires NoMatch(Listing(before), TypeOf(d.attributes), longName)
    requires AddsOne(Listing(before), Listing(WrittenAt(before + added, at, lfn + [item.entry])), item)
    ensures NamesWell(before, WrittenAt(before + added, at, lfn + [item.entry]), item, longName, TypeOf(d.attributes))
  {
    hide IsShortNameFor, IsValidName, NoMatch, AddsOne, Listing, WrittenAt, RunsAreWhole, ReadsAs, ReadsBack, NameOf,
         KeepsNamesDistinct, TypeOf, IsStandard, CompactName, IsEightDotThree;
    if RunsAreWhole(before) {
      LfnIsOneRun(lfn, longName);
      CreatingKeepsRunsWhole(before, added, at, lfn, item.entry);
      NewEntryReads(item, d, longName, short, Listing(before));
      NewNameIsDistinct(Listing(before), Listing(WrittenAt(before + added, at, lfn + [item.entry])), item,
                        TypeOf(d.attributes), longName);
    }
  }

  /** The long-name slots for a name: none for an 8.3 name. */
  ghost predicate IsLfnFor(lfn: seq<Slot>, longName: string)
  {
    if IsEightDotThree(longName) then lfn == [] else IsSequenceFor(lfn, longName)
  }

  lemma LfnIsOneRun(lfn: seq<Slot>, longName: string)
    requires IsLfnFor(lfn, longName)
    ensures IsOneRun(lfn)
  {
  }

  lemma NewEntryReads(item: Item, d: Details, longName: string, short: ShortName, before: seq<Item>)
    requires IsValidName(longName) && IsStripped(longName)
    requires IsLfnFor(item.longName, longName) && IsShortNameFor(longName, before, short)
    requires IsStandard(item.entry) && DetailsIn(item.entry) == d
    requires CompactName(item.entry) == Compacted(short.Name(), short.extension)
    ensures ReadsAs(item, longName, TypeOf(d.attributes))
  {
    hide CompactName, Survives, IsStandard, Compacted, AllAllowed;
    if IsEightDotThree(longName) {
      EightReads(longName, short, before);
      if TypeOf(d.attributes) != VOLUME_INFORMATION {
        NameOfEight(item, d);
      }
    } else {
      NoNull(longName);
      LongNameRoundTrip(item.longName, longName);
    }
  }

  lemma NoNull(longName: string)
    requires IsValidName(longName)
    ensures '\0' !in longName && 1 <= |longName| <= 255
  {
  }

  lemma EightReads(longName: string, short: ShortName, before: seq<Item>)
    requires IsValidName(longName) && IsStripped(longName)
    requires IsEightDotThree(longName) && IsShortNameFor(longName, before, short)
    ensures Compacted(short.Name(), short.extension) == longName <==> Survives(longName)
  {
    hide Survives, IsValidName, FitsEightDotThree;
    var stem, extension := SomeSplit(longName);
    assert IsShortFor(stem, extension, before, short);
    EightDotThreeReadsBack(longName, stem, extension);
  }

  /** Every name can be split. */
  lemma {:induction false} SomeSplit(longName: string) returns (stem: string, extension: string)
    ensures SplitsAt(longName, stem, extension)
  {
    if '.' !in longName {
      return longName, "";
    }
    var c := longName[|longName| - 1];
    assert longName == longName[..|longName| - 1] + [c];
    if c == '.' {
      return longName[..|longName| - 1], "";
    }
    stem, extension := SomeSplit(longName[..|longName| - 1]);
    extension := extension + [c];
  }

  lemma NameOfEight(item: Item, d: Details)
    requires item.longName == [] && IsStandard(item.entry) && DetailsIn(item.entry) == d
    requires TypeOf(d.attributes) != VOLUME_INFORMATION
    ensures NameOf(item) == CompactName(item.entry)
  {
  }

  lemma EntryIsNew(s: Slot, d: Details, longName: string, before: seq<Item>, short: ShortName)
    requires IsStandard(s) && s[0] as int != 0x20 && DetailsIn(s) == d && HasName(s, short)
    requires IsShortNameFor(longName, before, short)
    requires NameUnused(before, short.Name(), short.extension) <==> ShortNameClear(longName, before)
    ensures IsNewEntry(s, d, longName, before)
  {
  }

  /** The new entry is slot number `i`, which was vacant.  Unless it has an 8.3 name, the slots of the long name lie
      right before it. */
  ghost predicate IsPlaced(before: seq<Slot>, after: seq<Slot>, i: nat, entry: Slot, longName: string)
  {
    && i < |after| && after[i] == entry && (i < |before| ==> !InUse(before[i]))
    && (!IsEightDotThree(longName) ==> LongNameBefore(after, i, longName, ChecksumOf(entry[..11])))
  }

  ghost predicate IsInPlace(before: seq<Slot>, after: seq<Slot>, entry: Slot, longName: string)
  {
    exists i: nat :: IsPlaced(before, after, i, entry, longName)
  }

  lemma CreatedInPlace(before: seq<Slot>, added: seq<Slot>, at: nat, lfn: seq<Slot>, entry: Slot, after: seq<Slot>,
                       longName: string)
    requires EndsCleanly(before) && AllEnds(added) && FirstRoom(before + added, at, |lfn| + 2)
    requires after == WrittenAt(before + added, at, lfn + [entry])
             || after == Partly(before + added, at, lfn + [entry], |lfn| + 1)
    requires IsLfnFor(lfn, longName) && HaveChecksum(lfn, ChecksumOf(entry[..11]))
    ensures IsInPlace(before, after, entry, longName)
  {
    hide FirstRoom, IsSequenceFor, HaveChecksum, LongNameBefore, EndsCleanly, WrittenAt, IsEightDotThree, NoRoomUpTo;
    var room, i := before + added, at + |lfn|;
    EndsAppended(before, added);
    RoomIsVacant(room, at, |lfn| + 2);
    EndMarkStays(room, at, lfn + [entry]);
    assert (lfn + [entry])[..|lfn| + 1] == lfn + [entry];
    assert i < |before| ==> room[i] == before[i];
    assert after[i] == entry && after[i - |lfn|..i] == lfn;
    if !IsEightDotThree(longName) {
      SequenceLies(after, i, lfn, longName, ChecksumOf(entry[..11]));
    }
    assert IsPlaced(before, after, i, entry, longName);
  }

  lemma RoomIsVacant(slots: seq<Slot>, at: nat, n: nat)
    requires FirstRoom(slots, at, n)
    ensures Vacant(slots, at, at + n)
  {
  }

  /** Removing another entry leaves the new one where it is, and its long name. */
  lemma StillInPlace(before: seq<Slot>, created: seq<Slot>, entry: Slot, longName: string,
                     from: nat, i: nat)
    requires IsInPlace(before, created, entry, longName) && IsStandard(entry)
    requires i < |before| && i < |created| && IsStandard(before[i]) && created[i] == before[i]
    requires RunStart(created, i) <= from <= i
    ensures IsInPlace(before, Removal(created, from, i), entry, longName)
  {
    hide IsEightDotThree, LongNameBefore, RunStart;
    var p: nat :| IsPlaced(before, created, p, entry, longName);
    var after := Removal(created, from, i);
    if !IsEightDotThree(longName) {
      NameUntouched(created, after, from, i, p, longName, ChecksumOf(entry[..11]));
    }
    assert IsPlaced(before, after, p, entry, longName);
  }

  lemma PartIsLong(slots: seq<Slot>, p: nat, k: nat, longName: string, checksum: byte)
    requires LongNameBefore(slots, p, longName, checksum) && 1 <= k <= (|longName| + 12) / 13
    ensures p <= |slots| && k <= p && !IsStandard(slots[p - k])
  {
    assert PartLies(slots, p, k, longName, checksum);
  }

  lemma NameUntouched(slots: seq<Slot>, after: seq<Slot>, from: nat, i: nat, p: nat, longName: string, checksum: byte)
    requires LongNameBefore(slots, p, longName, checksum) && i < |slots| == |after| && i != p
    requires forall j :: 0 <= j < |slots| && !(from <= j <= i) ==> after[j] == slots[j]
    requires p < from || i < p
    requires IsStandard(slots[i])
    ensures LongNameBefore(after, p, longName, checksum)
  {
    hide Stores;
    forall k | 1 <= k <= (|longName| + 12) / 13 ensures PartLies(after, p, k, longName, checksum) {
      assert PartLies(slots, p, k, longName, checksum);
      var j := p - k;
      if i < p && j <= i {
        PartIsLong(slots, p, p - i, longName, checksum);
      }
      assert after[j] == slots[j];
    }
  }

  /** The slots in use are where they were. */
  ghost predicate SlotsKept(before: seq<Slot>, after: seq<Slot>)
  {
    |before| <= |after| && forall j :: 0 <= j < |before| && InUse(before[j]) ==> after[j] == before[j]
  }

  lemma KeptFrom(before: seq<Slot>, after: seq<Slot>)
    requires |before| <= |after| && forall j :: 0 <= j < |before| && InUse(before[j]) ==> after[j] == before[j]
    ensures SlotsKept(before, after)
  {
  }

  ghost function AnySlot(): Slot
  {
    seq(EntrySize, i => 0)
  }

  lemma Orderly(slots: seq<Slot>)
    requires IsOrderly(slots)
    ensures slots != [] && EndsCleanly(slots) && NamesStart(Listing(slots))
  {
  }

  lemma CreatedOrderly(before: seq<Slot>, after: seq<Slot>, item: Item, d: Details, longName: string)
    requires IsOrderly(before) && EndsCleanly(after) && |before| <= |after|
    requires forall j :: 0 <= j < |before| && InUse(before[j]) ==> after[j] == before[j]
    requires AddsOne(Listing(before), Listing(after), item) && IsNewEntry(item.entry, d, longName, Listing(before))
    ensures IsOrderly(after)
  {
    NamesStillStart(Listing(before), Listing(after), item);
  }

  /** The name and the extension in the eleven bytes they have in an entry. */
  ghost function NameBytes(s: ShortName): seq<byte>
    requires IsUsable(s)
  {
    Padded(s.Name(), 8) + Padded(s.extension, 3)
  }

  /** The loop over the eleven bytes. */
  method RotatingSum(filename: array<byte>) returns (checksum: byte)
    ensures checksum == ChecksumOf(filename[..])
  {
    checksum := 0;
    assert filename[..0] == [];
    for i := 0 to filename.Length
      invariant checksum == ChecksumOf(filename[..i])
    {
      assert filename[..i + 1][..i] == filename[..i];
      checksum := ((if checksum % 2 == 1 then 0x80 else 0) + checksum / 2 + filename[i]) % 0x100;
    }
    assert filename[..filename.Length] == filename[..];
  }

  method Checksum(short: ShortFilename) returns (checksum: byte)
    requires IsUsable(short.View())
    ensures checksum == ChecksumOf(NameBytes(short.View()))
  {
    var name := if short.numericTail.Some? then short.nameWithTail else short.name;
    var filename: array<byte> := new byte[11](i => 0x20);
    for i := 0 to |name|
      invariant forall k :: 0 <= k < 11 ==> filename[k] == if k < i then name[k] as int else 0x20
    {
      filename[i] := name[i] as int;
    }
    for i := 0 to |short.extension|
      invariant forall k :: 0 <= k < 8 ==> filename[k] == if k < |name| then name[k] as int else 0x20
      invariant forall k :: 8 <= k < 11 ==> filename[k] == if k < 8 + i then short.extension[k - 8] as int else 0x20
    {
      filename[8 + i] := short.extension[i] as int;
    }
    checksum := RotatingSum(filename);
    assert filename[..] == NameBytes(short.View());
  }

  method LfnSequenceFor(longName: string, eight: bool, short: ShortFilename, garbage: Blocks) returns (lfn: seq<Slot>)
    requires IsValidName(longName) && eight == IsEightDotThree(longName) && garbage.Valid() && IsUsable(short.View())
    ensures IsLfnFor(lfn, longName) && HaveChecksum(lfn, ChecksumOf(NameBytes(short.View())))
    ensures |lfn| + 2 <= MostLongEntries + 1
    ensures forall s :: IsStandard(s) ==> IsRun(lfn, s)
  {
    hide IsEightDotThree, IsUsable;
    lfn := [];
    if !eight {
      var checksum := Checksum(short);
      lfn := CreateLfnSequenceForFilename(longName, checksum, garbage);
      SequenceLength(lfn, longName);
    }
  }

  method EntryFor(short: ShortFilename, d: Details) returns (s: Slot)
    requires IsUsable(short.View()) && d.Valid()
    ensures IsStandard(s) && s[0] as int != 0x20 && DetailsIn(s) == d && HasName(s, short.View())
    ensures CompactName(s) == Compacted(short.View().Name(), short.View().extension)
    ensures s[..11] == NameBytes(short.View())
  {
    var name := if short.numericTail.Some? then short.nameWithTail else short.name;
    EntryIsStandard(name, short.extension, d);
    EntryReadsBack(name, short.extension, d);
    CompactOf(name, short.extension, d);
    s := ClusterEntry(name, short.extension, d);
  }

  lemma CompactOf(name: string, extension: string, d: Details)
    requires |name| <= 8 && |extension| <= 3 && FitsBytes(name) && FitsBytes(extension) && d.Valid()
    ensures CompactName(ClusterEntry(name, extension, d)) == Compacted(name, extension)
  {
    var s := ClusterEntry(name, extension, d);
    EntryReadsBack(name, extension, d);
    assert s[8..11] == Padded(extension, 3);
    assert s[8] == s[8..11][0] && s[9] == s[8..11][1] && s[10] == s[8..11][2];
  }

  // ---------------------------------------------------------------- renaming

  /** The first cluster an entry names; 0 in the entry for the parent stands for the root directory. */
  function FirstClusterFrom(s: Slot, root: nat): (c: nat)
    ensures var named := s[26] as int + 0x100 * s[27] as int + 0x1_0000 * s[20] as int + 0x100_0000 * s[21] as int;
            c == if named == 0 && s[..2] == [46, 46] then root else named
  {
    assert s[20..22] == [s[20], s[21]] && s[26..28] == [s[26], s[27]] && s[..2] == [s[0], s[1]];
    if FirstClusterOf(s, 0) == 0 && s[0] as char == '.' && s[1] as char == '.' then root else FirstClusterOf(s, 0)
  }

  /** The details a renamed entry keeps. */
  function DetailsKept(s: Slot, root: nat): Details
  {
    DetailsIn(s).(first := FirstClusterFrom(s, root))
  }

  lemma DetailsAreKept(s: Slot, root: nat)
    requires IsStandard(s) && root < 0x1_0000_0000
    ensures DetailsKept(s, root).Valid() && TypeOf(DetailsKept(s, root).attributes) == EntryTypeOf(s)
    ensures 0 < FirstClusterOf(s, 0) ==> DetailsKept(s, root) == DetailsIn(s)
  {
  }

  /** What renaming does to a listing: `created` has the new entry besides the old ones, and `after` is
      `created` without the old one, unless that could not be removed. */
  ghost predicate IsRenaming(before: seq<Item>, after: seq<Item>, former: Item, renewed: Item, removed: bool)
  {
    exists created ::
      AddsOne(before, created, renewed) && if removed then AddsOne(after, created, former) else after == created
  }

  /** What renaming does for names when no long-name slot has been left over before; `whole` says that the old
      run has been removed as a whole. */
  ghost predicate RenamedWell(before: seq<Slot>, after: seq<Slot>, item: Item, newName: string, t: EntryType,
                              whole: bool)
  {
    RunsAreWhole(before) ==>
      && (whole ==> RunsAreWhole(after)) && ReadsAs(item, newName, t)
      && (ReadsBack(newName, t) ==>
            NameOf(item) == newName && KeepsNamesDistinct(Listing(before), Listing(after), t))
  }

  /** Gives the entry at `address`, slot number `i`, a new name, by creating a new entry with the details of
      the old one and then removing the old one.  What becomes of the removal is not looked at. */
  method RenameEntry(directory: DirectoryCluster, address: EntryAddress, existing: Slot, newName: string,
                     garbage: Blocks, ghost i: nat)
    returns (r: ResultCode, absent: bool, ghost entry: Slot, ghost name: seq<Slot>, ghost oldName: seq<Slot>,
             ghost removed: bool, ghost taken: bool, ghost written: bool, ghost steps: seq<Step>)
    requires directory.Valid() && IsOrderly(directory.Slots())
    requires directory.IsAt(address, i) && i < |directory.Slots()|
    requires directory.Slots()[i] == existing && IsStandard(existing)
    requires IsCString(newName) && IsStripped(newName) && garbage.Valid()
    requires IsValidName(newName) && NoMatch(Listing(directory.Slots()), EntryTypeOf(existing), newName) ==>
               CanBeMade(directory.Slots(), newName, directory.entriesPerCluster)
    modifies directory.adapter.device, directory.adapter`lastEmptyClusterFound, directory`chain
    ensures IsNameError(r) || r in {FILENAME_ALREADY_IN_USE, TAIL_ABSENT} || IsReadResult(r) || IsPlacingResult(r)
    ensures directory.adapter.Valid() && old(directory.chain) <= directory.chain
    ensures !IsValidName(newName) ==> IsNameError(r) && !taken
    ensures !IsValidName(newName) || taken || absent ==>
              directory.adapter.device.storage == old(directory.adapter.device.storage)
    ensures directory.adapter.device.reliable && IsValidName(newName) ==>
              && (r == SUCCESS ==> removed)
              && taken == !NoMatch(old(Listing(directory.Slots())), EntryTypeOf(existing), newName)
              && (!taken ==> absent == TailAbsent(newName, old(Listing(directory.Slots()))))
              && (taken || absent || r == SUCCESS || NoRoom(directory, r, 0))
    ensures taken ==>
              && r == FILENAME_ALREADY_IN_USE
              && !NoMatch(old(Listing(directory.Slots())), EntryTypeOf(existing), newName)
    ensures absent ==> r == TAIL_ABSENT && TailAbsent(newName, old(Listing(directory.Slots())))
    ensures Leads(old(directory.adapter.Fat()), Owned(old(directory.chain)), steps,
                  directory.adapter.Fat(), Owned(directory.chain))
    ensures r == SUCCESS || directory.adapter.device.reliable ==> !IsOpen(steps)
    ensures r != SUCCESS && !IsOpen(steps) ==>
              && directory.Valid() && (directory.adapter.device.reliable ==> !written)
              && LeavesListing(old(directory.Slots()), directory.Slots(), written, Item(entry, name))
    ensures Confined(directory.adapter.layout, old(directory.adapter.device.storage), old(directory.chain),
                     directory.firstCluster, directory.adapter.device.storage, directory.chain)
    ensures r == SUCCESS ==>
              && directory.Valid() && EndsCleanly(directory.Slots()) && IsValidName(newName)
              && NoMatch(old(Listing(directory.Slots())), EntryTypeOf(existing), newName)
              && IsNewEntry(entry, DetailsKept(existing, directory.adapter.layout.rootCluster), newName,
                            old(Listing(directory.Slots())))
              && IsRenaming(old(Listing(directory.Slots())), Listing(directory.Slots()),
                            Item(existing, oldName), Item(entry, name), removed)
              && RenamedWell(old(directory.Slots()), directory.Slots(), Item(entry, name), newName,
                             EntryTypeOf(existing), directory.adapter.device.reliable)
              && IsInPlace(old(directory.Slots()), directory.Slots(), entry, newName)
  {
    hide *;
    oldName, removed := [], false;
    ghost var before, chain, s0 := directory.Slots(), directory.chain, directory.adapter.device.storage;
    ghost var place: nat := directory.PlaceOf(address, i);
    RootFits(directory);
    DetailsAreKept(existing, directory.adapter.layout.rootCluster);
    r, absent, entry, name, taken, written, steps :=
      CreateEntry(directory, newName, DetailsKept(existing, directory.adapter.layout.rootCluster), garbage);
    NameErrorIsNoSuccess(r);
    if r != SUCCESS {
      return;
    }
    ghost var created, c1, s1 := directory.Slots(), directory.chain, directory.adapter.device.storage;
    directory.AtPlace(address, i, place);
    StillThere(before, created, i);
    Orderly(created);
    Listed(before, created, Item(entry, name));
    var ignored;
    ghost var from;
    ignored, from, removed := directory.RemoveEntry(directory.firstCluster, address, i);
    RootFits(directory);
    ConfinedTransitive(directory.adapter.layout, s0, chain, directory.firstCluster, s1, c1,
                       directory.adapter.device.storage, directory.chain);
    if removed {
      oldName := RemovedListing(created, from, i);
      NewIsStandard(entry, DetailsKept(existing, directory.adapter.layout.rootCluster), newName, Listing(before));
      StillInPlace(before, created, entry, newName, from, i);
    }
    Renamed(Listing(before), Listing(created), Listing(directory.Slots()), Item(existing, oldName),
            Item(entry, name), removed);
    RenamedNames(before, created, directory.Slots(), Item(existing, oldName), Item(entry, name), newName,
                 EntryTypeOf(existing), from, i, removed, directory.adapter.device.reliable);
  }

  lemma Listed(before: seq<Slot>, after: seq<Slot>, item: Item)
    requires LeavesListing(before, after, true, item)
    ensures AddsOne(Listing(before), Listing(after), item)
  {
  }

  lemma NewIsStandard(entry: Slot, d: Details, longName: string, before: seq<Item>)
    requires IsNewEntry(entry, d, longName, before)
    ensures IsStandard(entry)
  {
  }

  lemma NameErrorIsNoSuccess(r: ResultCode)
    ensures IsNameError(r) ==> r != SUCCESS
  {
  }

  lemma RenamedNames(before: seq<Slot>, created: seq<Slot>, after: seq<Slot>, former: Item, renewed: Item,
                     newName: string, t: EntryType, from: nat, i: nat, removed: bool, whole: bool)
    requires NamesWell(before, created, renewed, newName, t)
    requires i < |created| && after == if removed then Removal(created, from, i) else created
    requires if removed then AddsOne(Listing(after), Listing(created), former) else Listing(after) == Listing(created)
    requires whole && removed ==> from == RunStart(created, i)
    ensures RenamedWell(before, after, renewed, newName, t, whole)
  {
    hide ReadsAs, ReadsBack, NameOf, KeepsNamesDistinct, Listing, AddsOne, RunsAreWhole, Removal;
    DistinctWhenRenamed(Listing(before), Listing(created), Listing(after), former, t, removed);
    if RunsAreWhole(before) && whole && removed {
      RemovingKeepsRunsWhole(created, i);
    }
  }

  lemma DistinctWhenRenamed(before: seq<Item>, created: seq<Item>, after: seq<Item>, former: Item, t: EntryType,
                            removed: bool)
    requires if removed then AddsOne(after, created, former) else after == created
    ensures KeepsNamesDistinct(before, created, t) ==> KeepsNamesDistinct(before, after, t)
  {
    if removed && DistinctNames(created, t) {
      FewerStayDistinct(after, created, former, t);
    }
  }

  lemma RootFits(directory: DirectoryCluster)
    requires directory.Valid()
    ensures directory.adapter.layout.rootCluster < 0x1_0000_0000 && directory.firstCluster != 0
  {
    LinkAt(directory.adapter.Fat(), directory.chain, 0);
  }

  lemma StillThere(before: seq<Slot>, after: seq<Slot>, i: nat)
    requires SlotsKept(before, after) && i < |before| && IsStandard(before[i])
    ensures i < |after| && after[i] == before[i] && IsStandard(after[i])
  {
  }

  lemma Renamed(before: seq<Item>, created: seq<Item>, after: seq<Item>, former: Item, renewed: Item, removed: bool)
    requires AddsOne(before, created, renewed) && if removed then AddsOne(after, created, former) else after == created
    ensures IsRenaming(before, after, former, renewed, removed)
  {
  }

  /** What removing does to the listing. */
  lemma RemovedListing(slots: seq<Slot>, from: nat, i: nat) returns (name: seq<Slot>)
    requires EndsCleanly(slots) && i < |slots| && IsStandard(slots[i]) && RunStart(slots, i) <= from <= i
    ensures EndsCleanly(Removal(slots, from, i))
    ensures AddsOne(Listing(Removal(slots, from, i)), Listing(slots), Item(slots[i], name))
  {
    assert Reached(slots, i);
    name := RemovingTakesOne(slots, from, i);
  }

  // ---------------------------------------------------------------- new directories

  const DirectoryAttribute: byte := 0x10

  function DotEntry(first: nat, stamps: seq<byte>, lastWrite: seq<byte>): Slot
    requires |stamps| == 7 && |lastWrite| == 4 && first < 0x1_0000_0000
  {
    ClusterEntry(".", "", Details(DirectoryAttribute, stamps, first, lastWrite, 0))
  }

  function DotDotEntry(first: nat, stamps: seq<byte>, lastWrite: seq<byte>): Slot
    requires |stamps| == 7 && |lastWrite| == 4 && first < 0x1_0000_0000
  {
    ClusterEntry("..", "", Details(DirectoryAttribute, stamps, first, lastWrite, 0))
  }

  /** The entry of a directory that starts at `first`: eight bytes of name and three of extension, the attribute byte,
      the size 0, and the time stamps. */
  ghost predicate NamesDirectory(s: Slot, name: string, first: nat, stamps: seq<byte>, lastWrite: seq<byte>)
  {
    && Trimmed(s[..8]) == name && s[8..11] == [0x20, 0x20, 0x20] && s[11] == 0x10 && s[12] == 0
    && s[26] as int + 0x100 * s[27] as int + 0x1_0000 * s[20] as int + 0x100_0000 * s[21] as int == first
    && s[28..32] == [0, 0, 0, 0] && s[13..20] == stamps && s[22..26] == lastWrite
  }

  /** The slots of a directory that starts at `c`, below one that starts at `parent`: `.` names the directory itself,
      `..` its parent, where the root directory goes by the number 0, and nothing is behind them. */
  ghost predicate AreNewSlots(slots: seq<Slot>, c: nat, parent: nat, root: nat, stamps: seq<byte>, lastWrite: seq<byte>)
  {
    && 2 <= |slots| && NamesDirectory(slots[0], ".", c, stamps, lastWrite)
    && NamesDirectory(slots[1], "..", if parent == root then 0 else parent, stamps, lastWrite)
    && FirstClusterFrom(slots[1], root) == parent
    && forall i :: 2 <= i < |slots| ==> slots[i][0] == 0x00
  }

  /** Cluster `c` is a directory with nothing in it, below the directory that starts at `first`. */
  ghost predicate IsNewDirectory(l: Layout, s: seq<byte>, n: nat, c: nat, first: nat, stamps: seq<byte>,
                                 lastWrite: seq<byte>)
  {
    && l.Valid() && l.FitsOn(s) && l.InRange(c) && EntrySize * n <= l.bytesPerCluster
    && AreNewSlots(SlotsIn(ClusterOf(l, s, c), n), c, first, l.rootCluster, stamps, lastWrite)
  }

  lemma DirectoryEntryNames(name: string, first: nat, stamps: seq<byte>, lastWrite: seq<byte>)
    requires 1 <= |name| <= 8 && FitsBytes(name) && |stamps| == 7 && |lastWrite| == 4 && first < 0x1_0000_0000
    ensures var s := ClusterEntry(name, "", Details(DirectoryAttribute, stamps, first, lastWrite, 0));
            && NamesDirectory(s, name, first, stamps, lastWrite) && FirstClusterOf(s, 0) == first
            && s[0] == name[0] as int && s[1] == if 1 < |name| then name[1] as int else 0x20
  {
    hide Encode16, Encode32, Decode32, Padded;
    var d := Details(DirectoryAttribute, stamps, first, lastWrite, 0);
    var s := ClusterEntry(name, "", d);
    EntryReadsBack(name, "", d);
    NoBytes();
    assert s[8..11] == Padded("", 3) && s[28..32] == Encode32(0);
    assert s[20..22] == [s[20], s[21]] && s[26..28] == [s[26], s[27]];
    SecondByte(name);
    assert s[1] == Padded(name, 8)[1];
  }

  lemma SecondByte(name: string)
    requires 1 <= |name| <= 8 && FitsBytes(name)
    ensures Padded(name, 8)[1] == if 1 < |name| then name[1] as int else 0x20
  {
  }

  lemma NoBytes()
    ensures Padded("", 3) == [0x20, 0x20, 0x20] && Encode32(0) == [0, 0, 0, 0]
  {
  }

  /** The entries that are written name the directory and its parent. */
  lemma NewSlotsAre(slots: seq<Slot>, c: nat, parent: nat, root: nat, stamps: seq<byte>, lastWrite: seq<byte>)
    requires |stamps| == 7 && |lastWrite| == 4 && c < 0x1_0000_0000 && parent < 0x1_0000_0000 && 2 <= |slots|
    requires slots[0] == DotEntry(c, stamps, lastWrite)
    requires slots[1] == DotDotEntry(if parent == root then 0 else parent, stamps, lastWrite)
    requires AllEnds(slots[2..])
    requires 0 < parent
    ensures AreNewSlots(slots, c, parent, root, stamps, lastWrite)
  {
    hide ClusterEntry, NamesDirectory, FirstClusterOf;
    DirectoryEntryNames(".", c, stamps, lastWrite);
    DirectoryEntryNames("..", if parent == root then 0 else parent, stamps, lastWrite);
    forall i | 2 <= i < |slots| ensures slots[i][0] == 0x00 {
      assert slots[i] == slots[2..][i - 2];
    }
  }

  /** Writes the cluster of a new directory.  In it the root directory goes by the number 0. */
  method WriteEmptyDirectoryCluster(directory: DirectoryCluster, c: nat, parent: nat,
                                    stamps: seq<byte>, lastWrite: seq<byte>)
    returns (r: ResultCode)
    requires directory.adapter.Valid() && directory.adapter.layout.InRange(c) && 2 <= directory.entriesPerCluster
    requires directory.adapter.layout.bytesPerCluster == EntrySize * directory.entriesPerCluster
    requires |stamps| == 7 && |lastWrite| == 4 && c < 0x1_0000_0000 && 0 < parent < 0x1_0000_0000
    modifies directory.adapter.device
    ensures directory.adapter.device.reliable ==> r == SUCCESS
    ensures directory.adapter.Valid() && OnlyClusterChanged(directory.adapter, c)
    ensures r in {SUCCESS, DEVICE_WRITE_ERROR}
    ensures r == SUCCESS ==>
              AreNewSlots(SlotsIn(directory.adapter.Cluster(c), directory.entriesPerCluster), c, parent,
                          directory.adapter.layout.rootCluster, stamps, lastWrite)
  {
    var up := if parent == directory.adapter.layout.rootCluster then 0 else parent;
    var dot, dotDot := DotEntry(c, stamps, lastWrite), DotDotEntry(up, stamps, lastWrite);
    var zeros := seq(directory.adapter.layout.bytesPerCluster, i => 0);
    var block := WithSlot(WithSlot(zeros, 0, dot), 1, dotDot);
    ghost var n := directory.entriesPerCluster;
    SlotReplaced(zeros, n, 0, dot);
    SlotReplaced(WithSlot(zeros, 0, dot), n, 1, dotDot);
    ZeroSlots(directory.adapter.layout.bytesPerCluster, n);
    BehindTwo(SlotsIn(zeros, n), dot, dotDot);
    NewSlotsAre(SlotsIn(block, n), c, parent, directory.adapter.layout.rootCluster, stamps, lastWrite);
    var ok := directory.adapter.WriteCluster(c, block);
    r := if ok then SUCCESS else DEVICE_WRITE_ERROR;
  }

  lemma ZeroSlots(size: nat, n: nat)
    requires size == EntrySize * n
    ensures AllEnds(SlotsIn(seq(size, i => 0), n))
  {
  }

  lemma BehindTwo(slots: seq<Slot>, a: Slot, b: Slot)
    requires AllEnds(slots) && 2 <= |slots|
    ensures AllEnds(slots[0 := a][1 := b][2..])
  {
    var after: seq<Slot> := slots[0 := a][1 := b];
    forall i | 0 <= i < |after[2..]| ensures IsUnusedAndEnd(after[2..][i]) {
      assert after[2..][i] == slots[i + 2];
    }
  }

  /** A new directory lists itself and its parent, and can be worked on. */
  lemma NewDirectoryIsOrderly(slots: seq<Slot>, c: nat, parent: nat, root: nat, stamps: seq<byte>, lastWrite: seq<byte>)
    requires AreNewSlots(slots, c, parent, root, stamps, lastWrite)
    ensures Listing(slots) == [Item(slots[0], []), Item(slots[1], [])] && IsOrderly(slots) && InUse(slots[0])
    ensures IsOfType(slots[0], DIRECTORY) && IsOfType(slots[1], DIRECTORY)
    ensures NameOf(Item(slots[0], [])) == "." && NameOf(Item(slots[1], [])) == ".."
    ensures FirstClusterFrom(slots[0], root) == c && FirstClusterFrom(slots[1], root) == parent
  {
    hide NameOf;
    DotsName(slots[0], ".", c, stamps, lastWrite);
    DotsName(slots[1], "..", if parent == root then 0 else parent, stamps, lastWrite);
    ScanStandard(slots, 0, []);
    ScanStandard(slots, 1, []);
    if 2 < |slots| {
      ScanOther(slots, 2, []);
    }
  }

  lemma DotsName(s: Slot, name: string, first: nat, stamps: seq<byte>, lastWrite: seq<byte>)
    requires NamesDirectory(s, name, first, stamps, lastWrite) && name in {".", ".."}
    ensures IsStandard(s) && s[0] != 0x20 && IsOfType(s, DIRECTORY) && NameOf(Item(s, [])) == name
    ensures FirstClusterOf(s, 0) == first && s[0] as char == '.' && (s[1] as char == '.' <==> name == "..")
  {
    assert s[8] == s[8..11][0] && s[9] == s[8..11][1] && s[10] == s[8..11][2];
    assert s[20..22] == [s[20], s[21]] && s[26..28] == [s[26], s[27]];
    assert name[0] == s[..8][0] as char;
    assert Trimmed(s[..8]) == [s[0] as char] + Trimmed(s[..8][1..]);
    assert s[..8][1..][0] == s[1];
    assert Trimmed(s[..8][1..]) == if s[1] == 0x20 then "" else [s[1] as char] + Trimmed(s[..8][1..][1..]);
  }

  /** The new cluster read as a directory: its slots are those of the one cluster. */
  lemma NewDirectoryOpens(l: Layout, s: seq<byte>, c: nat, first: nat, stamps: seq<byte>, lastWrite: seq<byte>)
    requires IsNewDirectory(l, s, EntriesPerCluster(l), c, first, stamps, lastWrite) && IsChain(FatOf(l, s), [c])
    ensures DirectoryOn(l, s, [c], c)
    ensures var slots := SlotsOf(l, s, [c], c);
            AreNewSlots(slots, c, first, l.rootCluster, stamps, lastWrite) && IsOrderly(slots)
  {
    hide AreNewSlots, SlotsIn, ClusterOf, FatOf, IsOrderly, IsChain, SlotsOf;
    WholeEntries(l);
    OneCluster(l, s, c);
    NewDirectoryIsOrderly(SlotsOf(l, s, [c], c), c, first, l.rootCluster, stamps, lastWrite);
  }

  lemma OneCluster(l: Layout, s: seq<byte>, c: nat)
    requires DirectoryOn(l, s, [c], c)
    ensures l.InRange(c) && SlotsOf(l, s, [c], c) == SlotsIn(ClusterOf(l, s, c), EntriesPerCluster(l))
  {
    hide SlotsIn, ClusterOf, FatOf, EntriesPerCluster;
    LinkAt(FatOf(l, s), [c], 0);
    var slots := SlotsIn(ClusterOf(l, s, c), EntriesPerCluster(l));
    assert SlotBlocks(l, s, [c], c) == [slots];
    assert [] + [slots] == [slots] && Flatten([]) + slots == slots;
    FlattenSnoc([], slots);
  }

  /** A free cluster filled as a new directory and marked as its only cluster. */
  method TakeDirectoryCluster(directory: DirectoryCluster, stamps: seq<byte>, lastWrite: seq<byte>)
    returns (r: ResultCode, c: nat, ghost steps: seq<Step>)
    requires directory.Valid() && 2 <= directory.entriesPerCluster && |stamps| == 7 && |lastWrite| == 4
    modifies directory.adapter.device, directory.adapter`lastEmptyClusterFound
    ensures r in {SUCCESS, DEVICE_FULL, UNABLE_TO_READ_FAT_TABLE_SECTOR, DEVICE_WRITE_ERROR,
                  UNABLE_TO_WRITE_FAT_TABLE_SECTOR}
    ensures directory.adapter.device.reliable ==> r in {SUCCESS, DEVICE_FULL}
    ensures directory.Valid() && directory.adapter.Valid()
    ensures r == DEVICE_FULL ==> directory.adapter.NothingFreeBut(0)
    ensures steps == if r == SUCCESS then [Allocate(c)] else []
    ensures r != SUCCESS ==> directory.adapter.Fat() == old(directory.adapter.Fat())
    ensures Leads(old(directory.adapter.Fat()), Owned(directory.chain), steps, directory.adapter.Fat(),
                  Owned(directory.chain) + if r == SUCCESS then {[c]} else {})
    ensures !IsOpen(steps)
    ensures directory.Slots() == old(directory.Slots())
    ensures Confined(directory.adapter.layout, old(directory.adapter.device.storage), directory.chain,
                     directory.firstCluster, directory.adapter.device.storage, directory.chain)
    ensures r == SUCCESS ==>
              && IsFree(old(directory.adapter.Fat()), c) && c !in directory.chain
              && directory.adapter.Fat() == Allocated(old(directory.adapter.Fat()), c)
              && IsNewDirectory(directory.adapter.layout, directory.adapter.device.storage,
                                directory.entriesPerCluster, c, directory.firstCluster, stamps, lastWrite)
  {
    hide AreNewSlots, Confined, SlotsOf, ClusterEntry, FatOf, ClusterOf, DirectoryOn, IsChain, Splice, Encode32,
         Leads, IsOpen;
    c, steps := 0, [];
    NoSteps(directory.adapter.Fat(), Owned(directory.chain));
    assert Owned(directory.chain) + {} == Owned(directory.chain);
    ghost var s0 := directory.adapter.device.storage;
    directory.StartOfSearch();
    FirstFits(directory);
    var next := directory.adapter.FindNextEmptyCluster(0);
    if next.Failure? {
      return next.code, c, steps;
    }
    c := next.value;
    AllocateSteps(directory.adapter.Fat(), Owned(directory.chain), c);
    r := WriteEmptyDirectoryCluster(directory, c, directory.firstCluster, stamps, lastWrite);
    ghost var s1 := directory.adapter.device.storage;
    FreeClusterWritten(directory.adapter.layout, s0, s1, directory.chain, directory.firstCluster, c);
    if r != SUCCESS {
      return;
    }
    var updated := directory.adapter.UpdateFatTableEntry(c, EndOfFile);
    if updated != SUCCESS {
      return UNABLE_TO_WRITE_FAT_TABLE_SECTOR, c, steps;
    }
    steps := [Allocate(c)];
    FreeClusterTaken(directory.adapter.layout, s1, directory.adapter.device.storage, directory.chain,
                     directory.firstCluster, c);
    ConfinedTransitive(directory.adapter.layout, s0, directory.chain, directory.firstCluster, s1, directory.chain,
                       directory.adapter.device.storage, directory.chain);
  }

  lemma FirstFits(directory: DirectoryCluster)
    requires directory.Valid()
    ensures 0 < directory.firstCluster < 0x1_0000_0000 && directory.adapter.layout.maximumCluster < 0x1_0000_0000
    ensures directory.adapter.layout.bytesPerCluster == EntrySize * directory.entriesPerCluster
  {
    LinkAt(directory.adapter.Fat(), directory.chain, 0);
  }

  /** Marking a free cluster as taken leaves the directory. */
  lemma FreeClusterTaken(l: Layout, s0: seq<byte>, s1: seq<byte>, chain: seq<nat>, first: nat, c: nat)
    requires DirectoryOn(l, s0, chain, first) && IsFree(FatOf(l, s0), c)
    requires l.FitsOn(s1) && FatOf(l, s1) == Allocated(FatOf(l, s0), c)
    requires forall d :: l.InRange(d) ==> ClusterOf(l, s1, d) == ClusterOf(l, s0, d)
    ensures DirectoryOn(l, s1, chain, first) && SlotsOf(l, s1, chain, first) == SlotsOf(l, s0, chain, first)
    ensures Confined(l, s0, chain, first, s1, chain) && c !in chain
  {
    ChainIsNotFree(FatOf(l, s0), chain, c);
    ChainFramed(FatOf(l, s0), FatOf(l, s1), chain);
    assert SlotBlocks(l, s1, chain, first) == SlotBlocks(l, s0, chain, first);
  }

  /** A cluster in use outside the chain is still as it was. */
  lemma StillTaken(l: Layout, s0: seq<byte>, chain: seq<nat>, first: nat, s1: seq<byte>, longer: seq<nat>, c: nat)
    requires Confined(l, s0, chain, first, s1, longer) && l.InRange(c) && c !in chain && first in chain
    requires FatOf(l, s0)[c] == EndOfFile
    ensures FatOf(l, s1)[c] == EndOfFile && ClusterOf(l, s1, c) == ClusterOf(l, s0, c) && c !in longer
    ensures IsChain(FatOf(l, s1), [c])
  {
  }

  /** A cluster outside the chain gets another entry. */
  lemma EntryElsewhere(l: Layout, s0: seq<byte>, s1: seq<byte>, chain: seq<nat>, first: nat, c: nat, v: nat)
    requires DirectoryOn(l, s0, chain, first) && l.FitsOn(s1) && c !in chain && l.InRange(c)
    requires FatOf(l, s1) == FatOf(l, s0)[c := v]
    requires forall d :: l.InRange(d) ==> ClusterOf(l, s1, d) == ClusterOf(l, s0, d)
    ensures DirectoryOn(l, s1, chain, first) && SlotsOf(l, s1, chain, first) == SlotsOf(l, s0, chain, first)
  {
    ChainFramed(FatOf(l, s0), FatOf(l, s1), chain);
    assert SlotBlocks(l, s1, chain, first) == SlotBlocks(l, s0, chain, first);
  }

  /** Setting the new cluster free again, or not, touches no other. */
  lemma ConfinedWith(l: Layout, s0: seq<byte>, c0: seq<nat>, first: nat, s1: seq<byte>, c1: seq<nat>,
                     s2: seq<byte>, c: nat)
    requires Confined(l, s0, c0, first, s1, c1) && l.FitsOn(s2) && l.InRange(c)
    requires FatOf(l, s2) in {FatOf(l, s1), FatOf(l, s1)[c := EntryFree]}
    requires forall d :: l.InRange(d) ==> ClusterOf(l, s2, d) == ClusterOf(l, s1, d)
    ensures Confined(l, s0, c0 + [c], first, s2, c1 + [c])
  {
  }

  /** A cluster that was free at first is nothing to be kept. */
  lemma ConfinedThroughFree(l: Layout, s0: seq<byte>, c0: seq<nat>, first: nat, s1: seq<byte>, s2: seq<byte>,
                            c2: seq<nat>, c: nat)
    requires Confined(l, s0, c0, first, s1, c0) && IsFree(FatOf(l, s0), c)
    requires Confined(l, s1, c0 + [c], first, s2, c2 + [c])
    ensures Confined(l, s0, c0, first, s2, c2)
  {
    forall d | d in c2 ensures d in c0 || IsFree(FatOf(l, s0), d) {
      assert d in c2 + [c];
    }
  }

  /** The directory's chain and the new one side by side. */
  lemma BothWellFormed(l: Layout, s: seq<byte>, chain: seq<nat>, first: nat, c: nat)
    requires DirectoryOn(l, s, chain, first) && c !in chain && l.InRange(c) && FatOf(l, s)[c] == EndOfFile
    ensures WellFormed(FatOf(l, s), Owned(chain) + {[c]}) && [c] !in Owned(chain) && first in chain
  {
    assert IsChain(FatOf(l, s), [c]);
    LinkAt(FatOf(l, s), chain, 0);
    assert chain[0] in chain && chain != [c];
  }

  /** The new cluster, if it stays marked. */
  ghost function Held(c: nat, held: bool): set<seq<nat>>
  {
    if held then {[c]} else {}
  }

  /** The rest of `CreateDirectory`, once its cluster `c` is taken: creates the entry, and sets the cluster
      free again when that fails.  `undone` says that this did not fail.  The cluster is set free even when the
      entry is there, because only what comes behind it failed. */
  method EnterDirectory(directory: DirectoryCluster, newName: string, stamps: seq<byte>, lastWrite: seq<byte>,
                        garbage: Blocks, c: nat)
    returns (r: ResultCode, absent: bool, ghost entry: Slot, ghost name: seq<Slot>, ghost undone: bool,
             ghost taken: bool, ghost written: bool, ghost steps: seq<Step>)
    requires directory.Valid() && IsOrderly(directory.Slots()) && directory.adapter.layout.InRange(c)
    requires IsCString(newName) && IsStripped(newName) && garbage.Valid() && |stamps| == 7 && |lastWrite| == 4
    requires IsValidName(newName) && NoMatch(Listing(directory.Slots()), DIRECTORY, newName) ==>
               CanBeMade(directory.Slots(), newName, directory.entriesPerCluster)
    requires c < 0x1_0000_0000 && c !in directory.chain && directory.adapter.Fat()[c] == EndOfFile
    modifies directory.adapter.device, directory.adapter`lastEmptyClusterFound, directory`chain
    ensures IsNameError(r) || r in {FILENAME_ALREADY_IN_USE, TAIL_ABSENT} || IsReadResult(r) || IsPlacingResult(r)
    ensures directory.adapter.Valid() && old(directory.chain) <= directory.chain
    ensures !IsValidName(newName) ==> r != SUCCESS && !taken && !absent
    ensures directory.adapter.device.reliable && !absent ==> undone
    ensures directory.adapter.device.reliable && IsValidName(newName) ==>
              && taken == !NoMatch(old(Listing(directory.Slots())), DIRECTORY, newName)
              && (!taken ==> absent == TailAbsent(newName, old(Listing(directory.Slots()))))
              && (taken || absent || r == SUCCESS || NoRoom(directory, r, c))
    ensures taken ==>
              && r == FILENAME_ALREADY_IN_USE && !NoMatch(old(Listing(directory.Slots())), DIRECTORY, newName)
    ensures absent ==> r != SUCCESS && !undone && TailAbsent(newName, old(Listing(directory.Slots())))
    ensures (taken || !IsValidName(newName)) && undone ==>
              directory.adapter.Fat() == old(directory.adapter.Fat())[c := EntryFree]
    ensures Confined(directory.adapter.layout, old(directory.adapter.device.storage), old(directory.chain) + [c],
                     directory.firstCluster, directory.adapter.device.storage, directory.chain + [c])
    ensures Leads(old(directory.adapter.Fat()), Owned(old(directory.chain)) + {[c]}, steps,
                  directory.adapter.Fat(), Owned(directory.chain) + Held(c, r == SUCCESS || !undone))
    ensures r == SUCCESS || directory.adapter.device.reliable ==> !IsOpen(steps) && written == (r == SUCCESS)
    ensures r != SUCCESS && undone ==> IsFree(directory.adapter.Fat(), c)
    ensures !IsOpen(steps) ==>
              && directory.Valid()
              && LeavesListing(old(directory.Slots()), directory.Slots(), written, Item(entry, name))
              && (written ==> IsNewEntry(entry, Details(DirectoryAttribute, stamps, c, lastWrite, 0), newName,
                                         old(Listing(directory.Slots())))
                              && IsInPlace(old(directory.Slots()), directory.Slots(), entry, newName))
    ensures r == SUCCESS ==>
              && IsOrderly(directory.Slots())
              && NoMatch(old(Listing(directory.Slots())), DIRECTORY, newName)
              && NamesWell(old(directory.Slots()), directory.Slots(), Item(entry, name), newName, DIRECTORY)
              && IsChain(directory.adapter.Fat(), [c]) && c !in directory.chain
              && directory.adapter.Cluster(c) == old(directory.adapter.Cluster(c))
  {
    hide TypeOf, IsReadResult, IsPlacingResult, IsInPlace, NoMatch, NamesWell, IsValidName, CanBeMade, IsCString,
         IsStripped, IsOrderly, IsNewEntry, TailAbsent,
         LeavesListing, Confined, Listing, SlotsOf, Splice, Encode32, Leads, IsOpen, WellFormed, Owned, ClusterOf,
         FatOf, DirectoryOn;
    ghost var l, s0, c0, fat0 := directory.adapter.layout, directory.adapter.device.storage, directory.chain,
                                directory.adapter.Fat();
    DirectoryDetails(stamps, c, lastWrite);
    BothWellFormed(l, s0, c0, directory.firstCluster, c);
    r, absent, entry, name, taken, written, steps :=
      CreateEntry(directory, newName, Details(DirectoryAttribute, stamps, c, lastWrite, 0), garbage);
    ghost var s1, fat1, c1 := directory.adapter.device.storage, directory.adapter.Fat(), directory.chain;
    StillTaken(l, s0, c0, directory.firstCluster, s1, c1, c);
    undone := r == SUCCESS;
    if r != SUCCESS && !absent {
      var freed := directory.adapter.UpdateFatTableEntry(c, EntryFree);
      undone := freed == SUCCESS;
    }
    ConfinedWith(l, s0, c0, directory.firstCluster, s1, c1, directory.adapter.device.storage, c);
    if r != SUCCESS && undone {
      LeadsThenFree(fat0, Owned(c0), steps, fat1, Owned(c1), c);
      assert Owned(c1) + Held(c, false) == Owned(c1);
      if !IsOpen(steps) {
        EntryElsewhere(l, s1, directory.adapter.device.storage, c1, directory.firstCluster, c, EntryFree);
      }
      steps := steps + [Free([c])];
    } else {
      LeadsBeside(fat0, Owned(c0), steps, fat1, Owned(c1), {[c]});
    }
  }

  lemma NoneHeld(chain: seq<nat>)
    ensures Owned(chain) + Held(0, false) == Owned(chain) && Owned(chain) + {} == Owned(chain)
  {
  }

  /** Creates a directory.  On success its entry names a chain of one cluster, apart from the parent's,
      that holds the entries for itself and its parent. */
  method CreateDirectory(directory: DirectoryCluster, newName: string, stamps: seq<byte>, lastWrite: seq<byte>,
                         garbage: Blocks)
    returns (r: ResultCode, absent: bool, c: nat, ghost entry: Slot, ghost name: seq<Slot>, ghost undone: bool,
             ghost taken: bool, ghost written: bool, ghost steps: seq<Step>)
    requires directory.Valid() && IsOrderly(directory.Slots()) && 2 <= directory.entriesPerCluster
    requires IsCString(newName) && IsStripped(newName) && garbage.Valid() && |stamps| == 7 && |lastWrite| == 4
    requires IsValidName(newName) && NoMatch(Listing(directory.Slots()), DIRECTORY, newName) ==>
               CanBeMade(directory.Slots(), newName, directory.entriesPerCluster)
    modifies directory.adapter.device, directory.adapter`lastEmptyClusterFound, directory`chain
    ensures IsNameError(r) || r in {FILENAME_ALREADY_IN_USE, TAIL_ABSENT} || IsReadResult(r) || IsPlacingResult(r)
    ensures directory.adapter.Valid() && old(directory.chain) <= directory.chain
    ensures !IsValidName(newName) ==> r != SUCCESS
    ensures directory.adapter.device.reliable && !absent ==> undone
    ensures directory.adapter.device.reliable && IsValidName(newName) ==>
              && (taken || absent || r == SUCCESS || NoRoom(directory, r, c))
              && (taken || r == DEVICE_FULL || NoMatch(old(Listing(directory.Slots())), DIRECTORY, newName))
              && (taken || r == DEVICE_FULL || absent == TailAbsent(newName, old(Listing(directory.Slots()))))
    ensures taken ==>
              && r == FILENAME_ALREADY_IN_USE && !NoMatch(old(Listing(directory.Slots())), DIRECTORY, newName)
    ensures absent ==> r != SUCCESS && TailAbsent(newName, old(Listing(directory.Slots())))
    ensures (taken || !IsValidName(newName)) && undone ==>
              directory.adapter.Fat() == old(directory.adapter.Fat())
    ensures Confined(directory.adapter.layout, old(directory.adapter.device.storage), old(directory.chain),
                     directory.firstCluster, directory.adapter.device.storage, directory.chain)
    ensures Leads(old(directory.adapter.Fat()), Owned(old(directory.chain)), steps, directory.adapter.Fat(),
                  Owned(directory.chain) + Held(c, c != 0 && (r == SUCCESS || !undone)))
    ensures r == SUCCESS || directory.adapter.device.reliable ==> !IsOpen(steps) && written == (r == SUCCESS)
    ensures r != SUCCESS && undone && c != 0 ==> IsFree(directory.adapter.Fat(), c)
    ensures !IsOpen(steps) ==>
              && directory.Valid()
              && LeavesListing(old(directory.Slots()), directory.Slots(), written, Item(entry, name))
              && (written ==> c < 0x1_0000_0000
                              && IsNewEntry(entry, Details(DirectoryAttribute, stamps, c, lastWrite, 0), newName,
                                            old(Listing(directory.Slots())))
                              && IsInPlace(old(directory.Slots()), directory.Slots(), entry, newName))
    ensures r == SUCCESS ==>
              && IsOrderly(directory.Slots())
              && NoMatch(old(Listing(directory.Slots())), DIRECTORY, newName)
              && NamesWell(old(directory.Slots()), directory.Slots(), Item(entry, name), newName, DIRECTORY)
              && IsChain(directory.adapter.Fat(), [c]) && c !in directory.chain
              && IsFree(old(directory.adapter.Fat()), c)
              && IsNewDirectory(directory.adapter.layout, directory.adapter.device.storage,
                                directory.entriesPerCluster, c, directory.firstCluster, stamps, lastWrite)
  {
    hide TypeOf, IsReadResult, IsPlacingResult, IsNameError, IsInPlace, NoMatch, NamesWell, IsValidName, CanBeMade,
         IsCString, IsStripped, IsNewEntry, TailAbsent,
         LeavesListing, Confined, Listing, SlotsOf, Splice, Encode32, Leads, IsOpen, WellFormed, Owned, ClusterOf,
         FatOf, DirectoryOn, AreNewSlots, ClusterEntry;
    entry, name, undone, taken, absent, written := AnySlot(), [], true, false, false, false;
    ghost var s0, c0, fat0 := directory.adapter.device.storage, directory.chain, directory.adapter.Fat();
    ghost var l, first := directory.adapter.layout, directory.firstCluster;
    NothingLeft(directory.Slots(), Item(entry, name));
    FirstFits(directory);
    r, c, steps := TakeDirectoryCluster(directory, stamps, lastWrite);
    if r != SUCCESS {
      PlacingResult(r);
      c := 0;
      NoneHeld(c0);
      return;
    }
    ghost var s1, fat1, more := directory.adapter.device.storage, directory.adapter.Fat(), [];
    r, absent, entry, name, undone, taken, written, more :=
      EnterDirectory(directory, newName, stamps, lastWrite, garbage, c);
    ConfinedThroughFree(l, s0, c0, first, s1, directory.adapter.device.storage, directory.chain, c);
    LeadsOn(fat0, Owned(c0), steps, fat1, Owned(c0) + {[c]}, more, directory.adapter.Fat(),
            Owned(directory.chain) + Held(c, r == SUCCESS || !undone));
    steps := steps + more;
  }

  lemma DirectoryDetails(stamps: seq<byte>, c: nat, lastWrite: seq<byte>)
    requires |stamps| == 7 && |lastWrite| == 4 && c < 0x1_0000_0000
    ensures Details(DirectoryAttribute, stamps, c, lastWrite, 0).Valid() && TypeOf(DirectoryAttribute) == DIRECTORY
  {
  }
}
