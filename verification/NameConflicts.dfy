/** Finding a numeric tail that no entry of the directory uses. */
module NameConflicts {
  import opened Memory
  import opened FatAdapter
  import opened DirectorySlots
  import opened ClusterSlots
  import opened Directories
  import opened ShortNames

  const SearchTableSize: nat := 100

  predicate IsDirectoryEntry(s: Slot)
  {
    InUse(s) && s[AttributeOffset] / 16 % 2 == 1
  }

  /** Neither a directory nor a volume label nor a system entry. */
  predicate IsFileEntry(s: Slot)
  {
    && InUse(s)
    && s[AttributeOffset] / 16 % 2 == 0 && s[AttributeOffset] / 8 % 2 == 0 && s[AttributeOffset] / 4 % 2 == 0
  }

  predicate IsNamed(s: Slot)
  {
    IsFileEntry(s) || IsDirectoryEntry(s)
  }

  /** Every file or directory has a short name that does not start with a space. */
  ghost predicate NamesStart(items: seq<Item>)
  {
    forall k :: 0 <= k < |items| && IsNamed(items[k].entry) ==> items[k].entry[0] as int != 0x20
  }

  /** The entry is a derivative of the basis and has no tail: the search asks it for one. */
  ghost predicate LacksTail(s: Slot, basis: ShortName)
  {
    IsNamed(s) && s[0] as int != 0x20 && IsDerivative(NameIn(s), basis) && NameIn(s).numericTail.None?
  }

  ghost predicate SomeLacksTail(items: seq<Item>, basis: ShortName)
  {
    exists k :: 0 <= k < |items| && LacksTail(items[k].entry, basis)
  }

  /** That cannot happen to a basis with a tail; and without one, no entry takes a tail. */
  lemma TailsAgree(s: Slot, basis: ShortName)
    ensures LacksTail(s, basis) ==> basis.numericTail.None?
    ensures basis.numericTail.None? ==> TailInUse(s, basis) == None
  {
  }

  lemma {:induction false} NoTailsWithin(items: seq<Item>, basis: ShortName, lo: nat, hi: nat)
    requires basis.numericTail.None?
    ensures TailsWithin(items, basis, lo, hi) == 0
  {
    if items != [] {
      TailsAgree(items[|items| - 1].entry, basis);
      NoTailsWithin(items[..|items| - 1], basis, lo, hi);
    }
  }

  /** The tail by which an entry stands in the way of the basis name. */
  ghost function TailInUse(s: Slot, basis: ShortName): Option<nat>
  {
    if IsNamed(s) && s[0] as int != 0x20 && IsDerivative(NameIn(s), basis) then NameIn(s).numericTail else None
  }

  ghost predicate TailTaken(items: seq<Item>, basis: ShortName, i: nat)
  {
    exists k :: 0 <= k < |items| && TailInUse(items[k].entry, basis) == Some(i)
  }

  /** How many entries have a tail from `lo` up to but not including `hi`. */
  ghost function TailsWithin(items: seq<Item>, basis: ShortName, lo: nat, hi: nat): (n: nat)
    ensures n <= |items|
  {
    if items == [] then 0
    else
      var last := TailInUse(items[|items| - 1].entry, basis);
      TailsWithin(items[..|items| - 1], basis, lo, hi) + if last.Some? && lo <= last.value < hi then 1 else 0
  }

  lemma {:induction false} TailsAddUp(items: seq<Item>, basis: ShortName, lo: nat, mid: nat, hi: nat)
    requires lo <= mid <= hi
    ensures TailsWithin(items, basis, lo, mid) + TailsWithin(items, basis, mid, hi) == TailsWithin(items, basis, lo, hi)
    decreases |items|
  {
    if items != [] {
      TailsAddUp(items[..|items| - 1], basis, lo, mid, hi);
    }
  }

  /** What one more entry adds. */
  lemma OneMoreItem(items: seq<Item>, item: Item, basis: ShortName, lo: nat, hi: nat)
    ensures forall i: nat :: TailTaken(items + [item], basis, i)
                        <==> TailTaken(items, basis, i) || TailInUse(item.entry, basis) == Some(i)
    ensures var tail := TailInUse(item.entry, basis);
            TailsWithin(items + [item], basis, lo, hi)
            == TailsWithin(items, basis, lo, hi) + if tail.Some? && lo <= tail.value < hi then 1 else 0
  {
    var more := items + [item];
    assert more[..|more| - 1] == items;
    forall i: nat ensures TailTaken(more, basis, i)
                     <==> TailTaken(items, basis, i) || TailInUse(item.entry, basis) == Some(i)
    {
      if TailTaken(items, basis, i) {
        var k :| 0 <= k < |items| && TailInUse(items[k].entry, basis) == Some(i);
        assert more[k] == items[k];
      }
      if TailInUse(item.entry, basis) == Some(i) {
        assert more[|items|] == item;
      }
    }
  }

  /** The first index of the table that is looked at: there is no tail 0. */
  function FirstIndex(offset: nat): (first: nat)
  {
    if offset == 0 then 1 else 0
  }

  /** Whether all the indices of the table that count are set. */
  method AllIndicesSet(inUse: array<bool>, first: nat) returns (all: bool)
    requires SearchTableSize < inUse.Length
    ensures all <==> forall i :: first <= i < SearchTableSize ==> inUse[i]
  {
    var i := first;
    while i < SearchTableSize
      invariant first <= i && forall j :: first <= j < i && j < SearchTableSize ==> inUse[j]
    {
      if !inUse[i] {
        return false;
      }
      i := i + 1;
    }
    return true;
  }

  /** The tail of an entry that is a derivative of the basis; `absent` when it has none. */
  method DerivativeTail(entry: Slot, basis: ShortFilename) returns (tail: Option<nat>, absent: bool)
    requires IsNamed(entry) ==> entry[0] as int != 0x20
    ensures tail == TailInUse(entry, basis.View()) && absent == LacksTail(entry, basis.View())
  {
    if !IsFileEntry(entry) && !IsDirectoryEntry(entry) {
      return None, false;
    }
    var short := new ShortFilename.FromCompact(entry);
    var derivative := short.IsDerivativeOfBasisFilename(basis);
    if derivative {
      return short.numericTail, short.numericTail.None?;
    }
    return None, false;
  }

  // ---------------------------------------------------------------- one window of the search

  /** How many of the flags from `lo` up to `hi` are set. */
  ghost function CountSet(flags: seq<bool>, lo: nat, hi: nat): nat
    requires hi <= |flags|
  {
    if hi <= lo then 0 else CountSet(flags, lo, hi - 1) + if flags[hi - 1] then 1 else 0
  }

  lemma {:induction false} CountOneMore(flags: seq<bool>, k: nat, lo: nat, hi: nat)
    requires k < |flags| && hi <= |flags|
    ensures CountSet(flags[k := true], lo, hi) <= CountSet(flags, lo, hi) + if k < hi then 1 else 0
    decreases hi
  {
    if lo < hi {
      CountOneMore(flags, k, lo, hi - 1);
    }
  }

  lemma {:induction false} CountAll(flags: seq<bool>, lo: nat, hi: nat)
    requires hi <= |flags| && forall i :: lo <= i < hi ==> flags[i]
    ensures CountSet(flags, lo, hi) == if lo < hi then hi - lo else 0
    decreases hi
  {
    if lo < hi {
      CountAll(flags, lo, hi - 1);
    }
  }

  lemma {:induction false} CountNone(flags: seq<bool>, lo: nat, hi: nat)
    requires hi <= |flags| && forall i :: lo <= i < hi ==> !flags[i]
    ensures CountSet(flags, lo, hi) == 0
    decreases hi
  {
    if lo < hi {
      CountNone(flags, lo, hi - 1);
    }
  }

  ghost predicate IsFull(flags: seq<bool>, first: nat)
  {
    SearchTableSize <= |flags| && forall i :: first <= i < SearchTableSize ==> flags[i]
  }

  ghost predicate WindowTaken(items: seq<Item>, basis: ShortName, offset: nat, i: nat)
  {
    TailTaken(items, basis, offset + i)
  }

  /** The table shows which tails of the window the items take. */
  ghost predicate Shows(flags: seq<bool>, items: seq<Item>, basis: ShortName, offset: nat)
  {
    SearchTableSize < |flags|
    && forall i :: 0 <= i < SearchTableSize ==> (flags[i] <==> WindowTaken(items, basis, offset, i))
  }

  /** Sets the flag of a tail in the window, and looks whether that was the last one. */
  method NoteTail(inUse: array<bool>, index: nat, first: nat, indicesSet: nat) returns (count: nat, allSet: bool)
    requires SearchTableSize < inUse.Length && index < SearchTableSize && first <= 1
    requires CountSet(inUse[..], first, SearchTableSize) <= indicesSet
    modifies inUse
    ensures count == indicesSet + 1 && inUse[..] == old(inUse[..])[index := true]
    ensures CountSet(inUse[..], first, SearchTableSize) <= count
    ensures allSet <==> IsFull(inUse[..], first)
    ensures allSet ==> SearchTableSize - first <= count
  {
    CountOneMore(inUse[..], index, first, SearchTableSize);
    inUse[index] := true;
    count := indicesSet + 1;
    allSet := false;
    if count >= SearchTableSize - first {
      allSet := AllIndicesSet(inUse, first);
    } else if IsFull(inUse[..], first) {
      CountAll(inUse[..], first, SearchTableSize);
    }
  }

  lemma NothingShown(flags: seq<bool>, basis: ShortName, offset: nat)
    requires SearchTableSize < |flags| && forall i :: 0 <= i < |flags| ==> !flags[i]
    ensures Shows(flags, [], basis, offset) && CountSet(flags, FirstIndex(offset), SearchTableSize) == 0
    ensures !IsFull(flags, FirstIndex(offset)) && TailsWithin([], basis, offset, offset + SearchTableSize) == 0
  {
    CountNone(flags, FirstIndex(offset), SearchTableSize);
    assert !flags[FirstIndex(offset)];
  }

  lemma ItemShown(before: seq<bool>, after: seq<bool>, items: seq<Item>, item: Item, basis: ShortName, offset: nat)
    requires Shows(before, items, basis, offset)
    requires var tail := TailInUse(item.entry, basis);
             after == if tail.Some? && offset <= tail.value < offset + SearchTableSize
                      then before[tail.value - offset := true] else before
    ensures Shows(after, items + [item], basis, offset)
    ensures var tail := TailInUse(item.entry, basis);
            TailsWithin(items + [item], basis, offset, offset + SearchTableSize)
            == TailsWithin(items, basis, offset, offset + SearchTableSize)
               + if tail.Some? && offset <= tail.value < offset + SearchTableSize then 1 else 0
  {
    hide TailInUse, TailTaken, TailsWithin;
    OneMoreItem(items, item, basis, offset, offset + SearchTableSize);
    forall i | 0 <= i < SearchTableSize ensures after[i] <==> WindowTaken(items + [item], basis, offset, i) {
      assert TailTaken(items + [item], basis, offset + i) == WindowTaken(items + [item], basis, offset, i);
    }
  }

  /** Adding items takes no tail back. */
  lemma StaysTaken(front: seq<Item>, back: seq<Item>, basis: ShortName, i: nat)
    requires TailTaken(front, basis, i)
    ensures TailTaken(front + back, basis, i)
  {
    var k :| 0 <= k < |front| && TailInUse(front[k].entry, basis) == Some(i);
    assert (front + back)[k] == front[k];
  }

  lemma {:induction false} MoreWithin(front: seq<Item>, back: seq<Item>, basis: ShortName, lo: nat, hi: nat)
    ensures TailsWithin(front, basis, lo, hi) <= TailsWithin(front + back, basis, lo, hi)
    decreases |back|
  {
    if back == [] {
      assert front + back == front;
    } else {
      assert (front + back)[..|front + back| - 1] == front + back[..|back| - 1];
      MoreWithin(front, back[..|back| - 1], basis, lo, hi);
    }
  }

  /** What a pass over the directory finds out about one window: either that all its tails are taken, or
      which of them are. */
  ghost predicate Surveyed(items: seq<Item>, basis: ShortName, offset: nat, allSet: bool, flags: seq<bool>)
  {
    var first := FirstIndex(offset);
    if allSet then
      && (forall i :: first <= i < SearchTableSize ==> WindowTaken(items, basis, offset, i))
      && SearchTableSize - first <= TailsWithin(items, basis, offset, offset + SearchTableSize)
    else Shows(flags, items, basis, offset) && !IsFull(flags, first)
  }

  lemma FullMeansSurveyed(flags: seq<bool>, front: seq<Item>, back: seq<Item>, basis: ShortName, offset: nat)
    requires Shows(flags, front, basis, offset) && IsFull(flags, FirstIndex(offset))
    requires SearchTableSize - FirstIndex(offset) <= TailsWithin(front, basis, offset, offset + SearchTableSize)
    ensures Surveyed(front + back, basis, offset, true, flags)
  {
    hide TailTaken, TailInUse, TailsWithin;
    forall i | FirstIndex(offset) <= i < SearchTableSize ensures WindowTaken(front + back, basis, offset, i) {
      assert WindowTaken(front, basis, offset, i);
      StaysTaken(front, back, basis, offset + i);
    }
    MoreWithin(front, back, basis, offset, offset + SearchTableSize);
  }

  /** One turn of the pass. */
  method ConsiderEntry(item: Slot, basis: ShortFilename, inUse: array<bool>, offset: nat, indicesSet: nat,
                       ghost done: seq<Item>, ghost current: Item)
    returns (count: nat, allSet: bool, absent: bool)
    requires current.entry == item && NamesStart([current])
    requires Shows(inUse[..], done, basis.View(), offset) && !IsFull(inUse[..], FirstIndex(offset))
    requires CountSet(inUse[..], FirstIndex(offset), SearchTableSize) <= indicesSet
    requires indicesSet == TailsWithin(done, basis.View(), offset, offset + SearchTableSize)
    modifies inUse
    ensures absent == LacksTail(item, basis.View())
    ensures Shows(inUse[..], done + [current], basis.View(), offset)
    ensures CountSet(inUse[..], FirstIndex(offset), SearchTableSize) <= count
    ensures count == TailsWithin(done + [current], basis.View(), offset, offset + SearchTableSize)
    ensures allSet <==> IsFull(inUse[..], FirstIndex(offset))
    ensures allSet ==> SearchTableSize - FirstIndex(offset) <= count
  {
    hide CountSet, IsFull, Shows, TailsWithin, TailInUse;
    count, allSet := indicesSet, false;
    ghost var before := inUse[..];
    ShowsLength(before, done, basis.View(), offset);
    StartOfItem([], current, []);
    var tail;
    tail, absent := DerivativeTail(item, basis);
    if tail.Some? && offset <= tail.value < offset + SearchTableSize {
      count, allSet := NoteTail(inUse, tail.value - offset, FirstIndex(offset), indicesSet);
    }
    ItemShown(before, inUse[..], done, current, basis.View(), offset);
  }

  lemma ShowsLength(flags: seq<bool>, items: seq<Item>, basis: ShortName, offset: nat)
    requires Shows(flags, items, basis, offset)
    ensures SearchTableSize < |flags|
  {
  }

  lemma StartOfItem(front: seq<Item>, item: Item, back: seq<Item>)
    requires NamesStart(front + [item] + back)
    ensures NamesStart([item]) && (IsNamed(item.entry) ==> item.entry[0] as int != 0x20)
  {
    assert (front + [item] + back)[|front|] == item;
  }

  lemma LackFound(front: seq<Item>, item: Item, back: seq<Item>, basis: ShortName)
    requires LacksTail(item.entry, basis)
    ensures SomeLacksTail(front + [item] + back, basis)
  {
    assert (front + [item] + back)[|front|] == item;
  }

  lemma NoLackYet(items: seq<Item>, item: Item, basis: ShortName)
    requires !SomeLacksTail(items, basis) && !LacksTail(item.entry, basis)
    ensures !SomeLacksTail(items + [item], basis)
  {
  }

  lemma NoLackInNone(basis: ShortName)
    ensures !SomeLacksTail([], basis)
  {
  }

  /** A full window rules out an absent tail anywhere. */
  lemma FullMeansTailed(items: seq<Item>, done: seq<Item>, basis: ShortName, offset: nat)
    requires SearchTableSize - FirstIndex(offset) <= TailsWithin(done, basis, offset, offset + SearchTableSize)
    ensures !SomeLacksTail(items, basis)
  {
    if basis.numericTail.None? {
      NoTailsWithin(done, basis, offset, offset + SearchTableSize);
    } else {
      forall k | 0 <= k < |items| ensures !LacksTail(items[k].entry, basis) {
        TailsAgree(items[k].entry, basis);
      }
    }
  }

  /** One pass over the entries of the directory. */
  method ScanWindow(directory: DirectoryCluster, basis: ShortFilename, offset: nat)
    returns (r: ResultCode, allSet: bool, inUse: array<bool>, absent: bool)
    requires directory.Valid() && NamesStart(Listing(directory.Slots()))
    ensures IsReadResult(r)
    ensures directory.adapter.device.reliable ==> r == SUCCESS
    ensures r == SUCCESS ==> absent == SomeLacksTail(Listing(directory.Slots()), basis.View())
    ensures absent ==> r == SUCCESS
    ensures fresh(inUse) && SearchTableSize < inUse.Length
    ensures r == SUCCESS && !absent ==>
              Surveyed(Listing(directory.Slots()), basis.View(), offset, allSet, inUse[..])
  {
    hide *;
    ghost var items, b, first := Listing(directory.Slots()), basis.View(), FirstIndex(offset);
    ghost var done: seq<Item> := [];
    inUse, allSet, absent := new bool[SearchTableSize + 1](i => false), false, false;
    NoLackInNone(b);
    NothingShown(inUse[..], b, offset);
    var indicesSet := 0;
    var itr := new DirectoryIterator(directory);
    itr.RestAtStart();
    NothingInFront(items);
    r := itr.NextEntry();
    ReadResult(r);
    while r == SUCCESS && itr.location != END
      invariant r == SUCCESS ==> itr.Valid()
      invariant IsReadResult(r)
      invariant directory.adapter.device.reliable ==> r == SUCCESS
      invariant itr.directory == directory && !allSet && fresh(inUse) && !absent && !SomeLacksTail(done, b)
      invariant r == SUCCESS && itr.location == END ==> items == done
      invariant r == SUCCESS && itr.location != END ==>
                  && itr.location == MID && itr.Upcoming() < |directory.Slots()|
                  && items == done + ([Item(directory.Slots()[itr.Upcoming()], itr.lfnEntries)] + itr.Rest())
      invariant Shows(inUse[..], done, b, offset) && !IsFull(inUse[..], first)
      invariant CountSet(inUse[..], first, SearchTableSize) <= indicesSet
      invariant indicesSet == TailsWithin(done, b, offset, offset + SearchTableSize)
      invariant |done| <= |items|
      decreases |items| - |done|
    {
      ghost var item, rest := Item(directory.Slots()[itr.Upcoming()], itr.lfnEntries), itr.Rest();
      Reassociate(done, item, rest);
      StartOfItem(done, item, rest);
      var entry := itr.AsClusterEntry();
      if entry.Failure? {
        r := entry.code;
        ReadResult(r);
        return;
      }
      indicesSet, allSet, absent := ConsiderEntry(entry.value, basis, inUse, offset, indicesSet, done, item);
      if absent {
        LackFound(done, item, rest, b);
        return;
      }
      NoLackYet(done, item, b);
      done := done + [item];
      if allSet {
        FullMeansSurveyed(inUse[..], done, rest, b, offset);
        FullMeansTailed(items, done, b, offset);
        return;
      }
      NothingBehind(done);
      r := itr.NextEntry();
      ReadResult(r);
    }
    if r == SUCCESS {
      ShownMeansSurveyed(inUse[..], items, b, offset);
    }
  }

  lemma NothingInFront(items: seq<Item>)
    ensures items == [] + items
  {
  }

  lemma NothingBehind(items: seq<Item>)
    ensures items + [] == items
  {
  }

  lemma Reassociate(done: seq<Item>, item: Item, rest: seq<Item>)
    ensures done + ([item] + rest) == done + [item] + rest
  {
  }

  lemma ShownMeansSurveyed(flags: seq<bool>, items: seq<Item>, basis: ShortName, offset: nat)
    requires Shows(flags, items, basis, offset) && !IsFull(flags, FirstIndex(offset))
    ensures Surveyed(items, basis, offset, false, flags)
  {
  }

  // ---------------------------------------------------------------- the whole search

  /** The least tail, from 1 on, that no entry takes. */
  ghost predicate IsLeastUnused(items: seq<Item>, basis: ShortName, tail: nat)
  {
    1 <= tail && !TailTaken(items, basis, tail) && forall i :: 1 <= i < tail ==> TailTaken(items, basis, i)
  }

  lemma {:induction false} TakenCounts(items: seq<Item>, basis: ShortName, i: nat)
    requires TailTaken(items, basis, i)
    ensures 1 <= TailsWithin(items, basis, i, i + 1)
    decreases |items|
  {
    var k :| 0 <= k < |items| && TailInUse(items[k].entry, basis) == Some(i);
    var front := items[..|items| - 1];
    if k < |items| - 1 {
      assert front[k] == items[k];
      TakenCounts(front, basis, i);
    }
  }

  lemma {:induction false} RunOfTaken(items: seq<Item>, basis: ShortName, hi: nat)
    requires 1 <= hi && forall i :: 1 <= i < hi ==> TailTaken(items, basis, i)
    ensures hi - 1 <= TailsWithin(items, basis, 1, hi)
  {
    hide *;
    if 1 < hi {
      RunOfTaken(items, basis, hi - 1);
      TakenCounts(items, basis, hi - 1);
      TailsAddUp(items, basis, 1, hi - 1, hi);
    }
  }

  /** No file or directory has this short name. */
  ghost predicate NameUnused(items: seq<Item>, name: string, extension: string)
  {
    forall k :: 0 <= k < |items| && IsNamed(items[k].entry) ==>
      !(Trimmed(items[k].entry[..8]) == name && Trimmed(items[k].entry[8..11]) == extension)
  }

  /** A basis with a tail that no entry takes gives a name that no entry has. */
  lemma UnusedTailUnusedName(items: seq<Item>, basis: ShortName, tail: nat)
    requires NamesStart(items) && IsTailedBasis(basis) && 1 <= tail <= MostTail && |Decimal(tail)| <= 7
    requires !TailTaken(items, basis, tail)
    ensures NameUnused(items, WithTail(basis.name, tail), basis.extension)
  {
    forall k | 0 <= k < |items| && IsNamed(items[k].entry)
      ensures !(Trimmed(items[k].entry[..8]) == WithTail(basis.name, tail)
                && Trimmed(items[k].entry[8..11]) == basis.extension)
    {
      var s := items[k].entry;
      if Trimmed(s[..8]) == WithTail(basis.name, tail) && Trimmed(s[8..11]) == basis.extension {
        ConflictIsDerivative(NameIn(s), basis, tail, Trimmed(s[..8]), Trimmed(s[8..11]));
      }
    }
  }

  /** Gives the name the least tail that no entry of the directory takes.  When an entry is a derivative of a
      name without a tail, the program takes the value of a tail that is not there, and `absent` says so; what
      it does then is not modelled. */
  method InsureShortFilenameDoesNotConflict(directory: DirectoryCluster, short: ShortFilename)
    returns (r: ResultCode, absent: bool, ghost tail: nat)
    requires directory.Valid() && |short.name| <= 8 && NamesStart(Listing(directory.Slots()))
    modifies short
    ensures IsReadResult(r)
    ensures directory.adapter.device.reliable ==> r == SUCCESS
    ensures r == SUCCESS ==> absent == SomeLacksTail(Listing(directory.Slots()), old(short.View()))
    ensures absent ==> r == SUCCESS && short.View() == old(short.View())
    ensures r == SUCCESS && !absent ==>
              && IsLeastUnused(Listing(directory.Slots()), old(short.View()), tail)
              && (|Listing(directory.Slots())| < MostTail ==> tail <= MostTail)
              && (tail <= MostTail ==>
                    && |Decimal(tail)| <= 7
                    && short.View() == old(short.View()).(numericTail := Some(tail),
                                                          nameWithTail := WithTail(old(short.name), tail)))
              && (MostTail < tail ==> short.View() == old(short.View()))
              && (tail <= MostTail && IsTailedBasis(old(short.View())) ==>
                    NameUnused(Listing(directory.Slots()), short.View().Name(), short.View().extension))
  {
    hide TailTaken, TailInUse, TailsWithin, IsTailedBasis, SomeLacksTail, NamesStart, NameUnused, Listing, WithTail,
         DirectoryOn, SlotsOf, Decimal;
    ghost var items, b := Listing(directory.Slots()), short.View();
    tail, absent := 0, false;
    var continueSearch, offset := true, 0;
    while continueSearch
      invariant 0 <= offset && (continueSearch ==> short.View() == b)
      invariant continueSearch ==> forall i :: 1 <= i < offset ==> TailTaken(items, b, i)
      invariant !absent && (!continueSearch ==> IsLeastUnused(items, b, tail) && !SomeLacksTail(items, b))
      invariant !continueSearch && tail <= MostTail ==>
                  && |Decimal(tail)| <= 7
                  && short.View() == b.(numericTail := Some(tail), nameWithTail := WithTail(b.name, tail))
      invariant !continueSearch && MostTail < tail ==> short.View() == b
      decreases continueSearch, |items| - TailsWithin(items, b, 0, offset)
    {
      var allSet, inUse;
      r, allSet, inUse, absent := ScanWindow(directory, short, offset);
      if r != SUCCESS || absent {
        return;
      }
      if !allSet {
        var i := FirstUnset(inUse, offset);
        tail := i + offset;
        LeastInWindow(items, b, offset, i, inUse[..]);
        var ignored := short.AddNumericTail(i + offset);
        continueSearch := false;
      } else {
        NextWindow(items, b, offset, inUse[..]);
      }
      offset := offset + SearchTableSize;
    }
    RunOfTaken(items, b, tail);
    if tail <= MostTail && IsTailedBasis(b) {
      UnusedTailUnusedName(items, b, tail);
    }
    return SUCCESS, false, tail;
  }

  method FirstUnset(inUse: array<bool>, offset: nat) returns (i: nat)
    requires SearchTableSize < inUse.Length && !IsFull(inUse[..], FirstIndex(offset))
    ensures FirstIndex(offset) <= i < SearchTableSize && !inUse[i]
    ensures forall j :: FirstIndex(offset) <= j < i ==> inUse[j]
  {
    i := FirstIndex(offset);
    while inUse[i]
      invariant FirstIndex(offset) <= i < SearchTableSize
      invariant forall j :: FirstIndex(offset) <= j < i ==> inUse[j]
      decreases SearchTableSize - i
    {
      assert exists j :: FirstIndex(offset) <= j < SearchTableSize && !inUse[..][j];
      i := i + 1;
    }
  }

  lemma LeastInWindow(items: seq<Item>, basis: ShortName, offset: nat, i: nat, flags: seq<bool>)
    requires Shows(flags, items, basis, offset) && FirstIndex(offset) <= i < SearchTableSize && !flags[i]
    requires forall j :: FirstIndex(offset) <= j < i ==> flags[j]
    requires forall j :: 1 <= j < offset ==> TailTaken(items, basis, j)
    ensures IsLeastUnused(items, basis, i + offset)
  {
    assert !WindowTaken(items, basis, offset, i);
    forall j | 1 <= j < i + offset ensures TailTaken(items, basis, j) {
      if offset <= j {
        assert WindowTaken(items, basis, offset, j - offset);
      }
    }
  }

  lemma NextWindow(items: seq<Item>, basis: ShortName, offset: nat, flags: seq<bool>)
    requires Surveyed(items, basis, offset, true, flags)
    requires forall j :: 1 <= j < offset ==> TailTaken(items, basis, j)
    ensures forall j :: 1 <= j < offset + SearchTableSize ==> TailTaken(items, basis, j)
    ensures TailsWithin(items, basis, 0, offset) < TailsWithin(items, basis, 0, offset + SearchTableSize) <= |items|
  {
    hide TailTaken, TailInUse, TailsWithin;
    TailsAddUp(items, basis, 0, offset, offset + SearchTableSize);
    forall j | 1 <= j < offset + SearchTableSize ensures TailTaken(items, basis, j) {
      if offset <= j {
        assert WindowTaken(items, basis, offset, j - offset);
      }
    }
  }
}
