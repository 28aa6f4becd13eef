/** `FAT32DirectoryCluster`: a directory kept in a chain of clusters. */
module Directories {
  import opened Memory
  import opened LayoutArithmetic
  import opened FatLayout
  import opened Chains
  import opened FatAdapter
  import opened Volumes
  import opened EntryFields
  import opened FatFile
  import opened DirectorySlots
  import opened ClusterSlots

  datatype EntryAddress = EntryAddress(cluster: nat, index: nat)

  /** Writing one cluster of the chain touches nothing outside it. */
  lemma ChainWritten(l: Layout, s0: seq<byte>, s1: seq<byte>, chain: seq<nat>, first: nat, place: nat)
    requires DirectoryOn(l, s0, chain, first) && place < |chain|
    requires l.FitsOn(s1) && FatOf(l, s1) == FatOf(l, s0)
    requires forall d :: l.InRange(d) && d != chain[place] ==> ClusterOf(l, s1, d) == ClusterOf(l, s0, d)
    ensures Confined(l, s0, chain, first, s1, chain)
  {
    assert chain[place] in chain;
  }

  /** Filling a free cluster touches nothing in use. */
  lemma FreeClusterWritten(l: Layout, s0: seq<byte>, s1: seq<byte>, chain: seq<nat>, first: nat, c: nat)
    requires DirectoryOn(l, s0, chain, first) && IsFree(FatOf(l, s0), c)
    requires l.FitsOn(s1) && FatOf(l, s1) == FatOf(l, s0)
    requires forall d :: l.InRange(d) && d != c ==> ClusterOf(l, s1, d) == ClusterOf(l, s0, d)
    ensures DirectoryOn(l, s1, chain, first) && SlotsOf(l, s1, chain, first) == SlotsOf(l, s0, chain, first)
    ensures Confined(l, s0, chain, first, s1, chain)
  {
    ChainIsNotFree(FatOf(l, s0), chain, c);
    forall i | 0 <= i < |chain| ensures SlotBlocks(l, s1, chain, first)[i] == SlotBlocks(l, s0, chain, first)[i] {
      assert chain[i] in chain;
    }
    assert SlotBlocks(l, s1, chain, first) == SlotBlocks(l, s0, chain, first);
  }

  lemma ChainUntouched(l: Layout, storage: seq<byte>, chain: seq<nat>, first: nat)
    requires DirectoryOn(l, storage, chain, first)
    ensures Confined(l, storage, chain, first, storage, chain)
  {
  }

  /** Linking a free cluster behind the last one, with or without the mark, touches nothing else. */
  lemma LinkTouched(l: Layout, s0: seq<byte>, s1: seq<byte>, chain: seq<nat>, first: nat, c: nat)
    requires DirectoryOn(l, s0, chain, first) && l.FitsOn(s1) && IsFree(FatOf(l, s0), c)
    requires forall d :: 0 <= d < l.maximumCluster && d != c && d != Last(chain) ==>
               FatOf(l, s1)[d] == FatOf(l, s0)[d]
    requires forall d :: l.InRange(d) ==> ClusterOf(l, s1, d) == ClusterOf(l, s0, d)
    ensures Confined(l, s0, chain, first, s1, chain) && Confined(l, s0, chain, first, s1, chain + [c])
  {
    assert Last(chain) in chain;
  }

  lemma SameDirectory(l: Layout, s0: seq<byte>, s1: seq<byte>, chain: seq<nat>, first: nat)
    requires DirectoryOn(l, s0, chain, first) && l.FitsOn(s1) && FatOf(l, s1) == FatOf(l, s0)
    requires forall d :: l.InRange(d) ==> ClusterOf(l, s1, d) == ClusterOf(l, s0, d)
    ensures DirectoryOn(l, s1, chain, first) && SlotsOf(l, s1, chain, first) == SlotsOf(l, s0, chain, first)
  {
    assert SlotBlocks(l, s1, chain, first) == SlotBlocks(l, s0, chain, first);
  }

  class DirectoryCluster {
    const adapter: BlockIoAdapter
    const entriesPerCluster: nat
    var firstCluster: nat
    ghost var chain: seq<nat>

    constructor (a: BlockIoAdapter, first: nat, ghost clusters: seq<nat>)
      requires a.Valid() && IsChain(a.Fat(), clusters) && clusters[0] == first
      ensures Valid() && adapter == a && chain == clusters
    {
      WholeEntries(a.layout);
      adapter, firstCluster, chain := a, first, clusters;
      entriesPerCluster := a.layout.bytesPerCluster / EntrySize;
    }

    ghost predicate Valid()
      reads this, adapter, adapter.device
    {
      && adapter.Valid() && DirectoryOn(adapter.layout, adapter.device.storage, chain, firstCluster)
      && entriesPerCluster == EntriesPerCluster(adapter.layout) && 0 < entriesPerCluster
    }

    /** The slots of the directory. */
    ghost function Slots(): (slots: seq<Slot>)
      requires Valid()
      reads this, adapter, adapter.device
      ensures |slots| == Product(|chain|, entriesPerCluster)
    {
      SlotsOf(adapter.layout, adapter.device.storage, chain, firstCluster)
    }

    /** The slots, with what the buffer holds in the place of cluster number `place` of the chain. */
    ghost function Overlay(place: nat, buffer: seq<byte>): (slots: seq<Slot>)
      requires Valid() && place < |chain| && |buffer| == adapter.layout.bytesPerCluster
      reads this, adapter, adapter.device
      ensures |slots| == Product(|chain|, entriesPerCluster)
    {
      Overlaid(adapter.layout, adapter.device.storage, chain, firstCluster, place, buffer)
    }

    /** The buffer is read from the device: it shows the directory as it is. */
    method Load(cluster: nat, ghost place: nat) returns (block: Option<seq<byte>>)
      requires Valid() && place < |chain| && chain[place] == cluster
      ensures adapter.device.reliable ==> block.Some?
      ensures block.Some? ==>
                |block.value| == adapter.layout.bytesPerCluster && Overlay(place, block.value) == Slots()
    {
      block := adapter.ReadCluster(cluster);
      if block.Some? {
        OverlaidSelf(adapter.layout, adapter.device.storage, chain, firstCluster, place, block.value);
      }
    }

    /** The buffer is written to the device. */
    method Flush(cluster: nat, buffer: seq<byte>, ghost place: nat) returns (ok: bool)
      requires Valid() && place < |chain| && chain[place] == cluster && |buffer| == adapter.layout.bytesPerCluster
      modifies adapter.device
      ensures adapter.device.reliable ==> ok
      ensures Valid() && adapter.Valid() && adapter.Fat() == old(adapter.Fat())
      ensures Slots() == if ok then old(Overlay(place, buffer)) else old(Slots())
      ensures Confined(adapter.layout, old(adapter.device.storage), chain, firstCluster,
                       adapter.device.storage, chain)
    {
      hide Confined;
      ghost var s0 := adapter.device.storage;
      ok := adapter.WriteCluster(cluster, buffer);
      if ok {
        OverlaidWritten(adapter.layout, s0, adapter.device.storage, chain, firstCluster, place, buffer);
      }
      ChainWritten(adapter.layout, s0, adapter.device.storage, chain, firstCluster, place);
    }

    /** What the FAT says behind a cluster of the chain. */
    method Behind(cluster: nat, ghost place: nat) returns (next: Result<nat>)
      requires Valid() && place < |chain| && chain[place] == cluster
      ensures adapter.device.reliable ==> next.Success?
      ensures next.Failure? ==> next.code == UNABLE_TO_READ_FAT_TABLE_SECTOR
      ensures next.Success? ==>
                if place == |chain| - 1 then next.value == EndOfFile
                else next.value == chain[place + 1] && next.value < EntryDefective
    {
      LinkAt(adapter.Fat(), chain, place);
      next := adapter.NextClusterInChain(cluster);
    }

    // -------------------------------------------------------------- growing

    /** The walk to the last cluster of the chain. */
    method LastCluster() returns (last: Result<nat>)
      requires Valid()
      ensures adapter.device.reliable ==> last.Success?
      ensures last.Success? ==> last.value == Last(chain) && adapter.layout.InRange(last.value)
      ensures last.Failure? ==> last.code == UNABLE_TO_READ_FAT_TABLE_SECTOR
    {
      var current := firstCluster;
      ghost var place := 0;
      while true
        invariant place < |chain| && current == chain[place]
        decreases |chain| - place
      {
        var next := Behind(current, place);
        if next.Failure? {
          return Failure(next.code);
        }
        if next.value >= EOFThreshold {
          break;
        }
        current := next.value;
        place := place + 1;
      }
      return Success(current);
    }

    /** Links `c` behind `last` and marks it as the new end.  When the mark cannot be written the
        link is taken back.  It stays open when that fails, too; `undone` says that it does not. */
    method LinkOrBackOut(last: nat, c: nat) returns (r: ResultCode, ghost undone: bool, ghost steps: seq<Step>)
      requires adapter.Valid() && adapter.layout.InRange(last) && IsFree(adapter.Fat(), c)
      requires adapter.Fat()[last] == EndOfFile && chain != [] && last == Last(chain)
      modifies adapter.device
      ensures adapter.device.reliable ==> r == SUCCESS
      ensures r in {SUCCESS, UNABLE_TO_READ_FAT_TABLE_SECTOR, UNABLE_TO_WRITE_FAT_TABLE_SECTOR}
      ensures adapter.Valid() && adapter.DataUnchanged()
      ensures r == SUCCESS ==> undone && adapter.Fat() == Extended(old(adapter.Fat()), last, c)
      ensures r != SUCCESS ==>
                adapter.Fat() == if undone then old(adapter.Fat()) else old(adapter.Fat())[last := c]
      ensures Leads(old(adapter.Fat()), Owned(chain), steps, adapter.Fat(),
                    if r == SUCCESS then Owned(chain + [c]) else Owned(chain))
      ensures undone == !IsOpen(steps) && (adapter.device.reliable ==> undone)
    {
      hide Leads, IsOpen, FatOf, ClusterOf;
      undone, steps := true, [];
      NoSteps(adapter.Fat(), Owned(chain));
      LinkSteps(adapter.Fat(), chain, c);
      r := adapter.UpdateFatTableEntry(last, c);
      if r != SUCCESS {
        return;
      }
      steps := [Link(chain, c), Mark];
      r := adapter.UpdateFatTableEntry(c, EndOfFile);
      if r != SUCCESS {
        var restored := adapter.UpdateFatTableEntry(last, EndOfFile);
        undone := restored == SUCCESS;
        steps := if undone then [Link(chain, c), Unlink] else [Link(chain, c)];
        return;
      }
    }

    /** Fills a free cluster with zeros. */
    method ZeroFreeCluster() returns (r: ResultCode, c: nat)
      requires adapter.Valid()
      modifies adapter.device, adapter`lastEmptyClusterFound
      ensures adapter.device.reliable ==> r in {SUCCESS, DEVICE_FULL}
      ensures r in {SUCCESS, DEVICE_FULL, UNABLE_TO_READ_FAT_TABLE_SECTOR, DEVICE_WRITE_ERROR}
      ensures adapter.Valid() && adapter.Fat() == old(adapter.Fat())
      ensures r == DEVICE_FULL ==> adapter.NothingFreeBut(0)
      ensures r == SUCCESS ==>
                && IsFree(adapter.Fat(), c)
                && adapter.Cluster(c) == seq(adapter.layout.bytesPerCluster, i => 0)
      ensures r != SUCCESS ==> adapter.device.storage == old(adapter.device.storage)
      ensures forall d :: adapter.layout.InRange(d) && d != c ==> adapter.Cluster(d) == old(adapter.Cluster(d))
    {
      c := 0;
      var next := adapter.FindNextEmptyCluster(0);
      if next.Failure? {
        return next.code, c;
      }
      c := next.value;
      var block := seq(adapter.layout.bytesPerCluster, i => 0);
      var ok := adapter.WriteCluster(c, block);
      r := if ok then SUCCESS else DEVICE_WRITE_ERROR;
    }

    /** Puts a zeroed cluster behind the last one. */
    method AddNewCluster() returns (r: ResultCode, ghost undone: bool, ghost added: seq<Slot>, ghost steps: seq<Step>)
      requires Valid()
      modifies adapter.device, adapter`lastEmptyClusterFound, this`chain
      ensures adapter.device.reliable ==> r in {SUCCESS, DEVICE_FULL}
      ensures r in {SUCCESS, DEVICE_FULL, DEVICE_WRITE_ERROR, UNABLE_TO_READ_FAT_TABLE_SECTOR,
                    UNABLE_TO_WRITE_FAT_TABLE_SECTOR}
      ensures adapter.Valid()
      ensures Leads(old(adapter.Fat()), Owned(old(chain)), steps, adapter.Fat(), Owned(chain))
      ensures undone == !IsOpen(steps) && (adapter.device.reliable ==> undone)
      ensures adapter.device.reliable && r == DEVICE_FULL ==> adapter.NothingFreeBut(0)
      ensures Confined(adapter.layout, old(adapter.device.storage), old(chain), firstCluster,
                       adapter.device.storage, chain)
      ensures r == SUCCESS ==>
                && undone && Valid()
                && Slots() == old(Slots()) + added && |added| == entriesPerCluster && AllEnds(added)
                && |chain| == |old(chain)| + 1 && old(chain) <= chain
      ensures r != SUCCESS ==> chain == old(chain) && (undone ==> Valid() && Slots() == old(Slots()))
    {
      hide Confined, IsChain, FatOf, ClusterOf, Leads, IsOpen;
      undone, added, steps := true, [], [];
      NoSteps(adapter.Fat(), Owned(chain));
      ghost var s0, c0 := adapter.device.storage, chain;
      var c;
      r, c := ZeroFreeCluster();
      if r != SUCCESS {
        ChainUntouched(adapter.layout, s0, chain, firstCluster);
        return;
      }
      ghost var s1 := adapter.device.storage;
      FreeClusterWritten(adapter.layout, s0, s1, chain, firstCluster, c);
      r, undone, added, steps := LinkLast(c);
      ConfinedTransitive(adapter.layout, s0, c0, firstCluster, s1, c0, adapter.device.storage, chain);
    }

    /** Links the zeroed cluster behind the last one. */
    method LinkLast(c: nat) returns (r: ResultCode, ghost undone: bool, ghost added: seq<Slot>, ghost steps: seq<Step>)
      requires Valid() && IsFree(adapter.Fat(), c)
      requires adapter.Cluster(c) == seq(adapter.layout.bytesPerCluster, i => 0)
      modifies adapter.device, this`chain
      ensures adapter.device.reliable ==> r == SUCCESS
      ensures r in {SUCCESS, UNABLE_TO_READ_FAT_TABLE_SECTOR, UNABLE_TO_WRITE_FAT_TABLE_SECTOR}
      ensures adapter.Valid()
      ensures Leads(old(adapter.Fat()), Owned(old(chain)), steps, adapter.Fat(), Owned(chain))
      ensures undone == !IsOpen(steps) && (adapter.device.reliable ==> undone)
      ensures Confined(adapter.layout, old(adapter.device.storage), old(chain), firstCluster,
                       adapter.device.storage, chain)
      ensures r == SUCCESS ==>
                && undone && Valid()
                && Slots() == old(Slots()) + added && |added| == entriesPerCluster && AllEnds(added)
                && |chain| == |old(chain)| + 1 && old(chain) <= chain
      ensures r != SUCCESS ==> chain == old(chain) && (undone ==> Valid() && Slots() == old(Slots()))
    {
      hide Confined, SlotsOf, Leads, IsOpen;
      undone, added, steps := true, [], [];
      NoSteps(adapter.Fat(), Owned(chain));
      ghost var s0, c0 := adapter.device.storage, chain;
      ChainUntouched(adapter.layout, s0, chain, firstCluster);
      var last := LastCluster();
      if last.Failure? {
        return last.code, undone, added, steps;
      }
      LinkAt(adapter.Fat(), chain, |chain| - 1);
      r, undone, steps := LinkOrBackOut(last.value, c);
      LinkTouched(adapter.layout, s0, adapter.device.storage, chain, firstCluster, c);
      if r == SUCCESS {
        added := DirectoryGrown(adapter.layout, s0, adapter.device.storage, chain, firstCluster, c);
        chain := chain + [c];
      } else if undone {
        SameDirectory(adapter.layout, s0, adapter.device.storage, chain, firstCluster);
      }
    }

    // -------------------------------------------------------------- looking for room

    /** `a` is the address of slot number `at`. */
    ghost predicate IsAt(a: EntryAddress, at: nat)
      reads this`chain
    {
      a.index < entriesPerCluster
      && exists p :: 0 <= p < |chain| && a.cluster == chain[p] && at == Product(p, entriesPerCluster) + a.index
    }

    /** One pass over the slots.  The count of vacant slots comes from the pass before, and a first slot in use
        resets it; where vacant slots at the start make it up to `n`, the place comes from the pass before too. */
    method FindInPass(n: nat, countBefore: nat, startBefore: EntryAddress)
      returns (r: ResultCode, found: bool, count: nat, start: EntryAddress, ghost at: nat)
      requires Valid() && countBefore < n
      ensures adapter.device.reliable ==> r == SUCCESS
      ensures r in {SUCCESS, DEVICE_READ_ERROR, UNABLE_TO_READ_FAT_TABLE_SECTOR}
      ensures r == SUCCESS && Wraps(Slots(), n, countBefore) ==> found && start == startBefore
      ensures r == SUCCESS && !Wraps(Slots(), n, countBefore) && found ==>
                FirstRoom(Slots(), at, n) && IsAt(start, at)
      ensures r == SUCCESS && !found ==> NoRoomUpTo(Slots(), |Slots()|, n) && count < n
      ensures r == SUCCESS && !found && (countBefore == 0 || !Vacant(Slots(), 0, |Slots()|)) ==>
                && count == VacantBefore(Slots(), |Slots()|)
                && (0 < count ==> IsAt(start, |Slots()| - count))
    {
      hide *;
      r, found, count, start, at := SUCCESS, false, countBefore, startBefore, 0;
      ghost var slots := Slots();
      CountStarts(slots, n, countBefore);
      var itr := new DirectoryIterator(this);
      itr.UpcomingAtStart();
      while itr.location != END
        invariant itr.Valid() && itr.directory == this && r == SUCCESS && !found
        invariant itr.Upcoming() <= |slots| && NoRoomUpTo(slots, itr.Upcoming(), n) && count < n
        invariant itr.location == END ==> itr.Upcoming() == |slots|
        invariant Counted(slots, itr.Upcoming(), n, countBefore, count)
        invariant if 0 < countBefore && Vacant(slots, 0, itr.Upcoming()) then 0 < count && start == startBefore
                  else 0 < count ==> count <= itr.Upcoming() && IsAt(start, itr.Upcoming() - count)
        decreases |slots| - itr.Upcoming()
      {
        var s := itr.AsClusterEntry();
        if s.Failure? {
          return s.code, found, count, start, at;
        }
        ghost var p := itr.Upcoming();
        RoomStep(slots, p, n, countBefore, count);
        VacantStep(slots, p);
        VacantMarks(s.value);
        if IsUnused(s.value) || IsUnusedAndEnd(s.value) {
          if count == 0 {
            itr.AddressOfCurrent();
            start := itr.current;
          }
          count := count + 1;
          if count >= n {
            found := true;
            at := if n <= p + 1 then p + 1 - n else 0;
            return;
          }
        } else {
          count := 0;
        }
        r := itr.NextSlot();
        if r != SUCCESS {
          return;
        }
      }
      CountEnds(slots, n, countBefore, count);
    }

    /** The first room for `n` slots, where up to three clusters are added when there is none.  The count of
        vacant slots is not reset between the passes; it leads to a place with too little room behind it exactly
        if the search is `Misled`. */
    method FindEmptyBlockOfEntries(n: nat)
      returns (r: Result<EntryAddress>, ghost at: nat, ghost added: seq<Slot>, ghost undone: bool,
               ghost steps: seq<Step>)
      requires Valid() && Slots() != [] && 0 < n && (InUse(Slots()[0]) || n <= 2 * entriesPerCluster)
      modifies adapter.device, adapter`lastEmptyClusterFound, this`chain
      ensures adapter.Valid()
      ensures Leads(old(adapter.Fat()), Owned(old(chain)), steps, adapter.Fat(), Owned(chain))
      ensures undone == !IsOpen(steps) && (adapter.device.reliable ==> undone)
      ensures adapter.device.reliable && r.Failure? ==>
                r.code in {DEVICE_FULL, UNABLE_TO_FIND_EMPTY_BLOCK_OF_DIRECTORY_ENTRIES}
      ensures adapter.device.reliable && r == Failure(DEVICE_FULL) ==> adapter.NothingFreeBut(0)
      ensures Confined(adapter.layout, old(adapter.device.storage), old(chain), firstCluster,
                       adapter.device.storage, chain)
      ensures undone ==> Valid() && Slots() == old(Slots()) + added && AllEnds(added)
      ensures old(chain) <= chain
      ensures r.Failure? ==>
                r.code in {DEVICE_FULL, UNABLE_TO_FIND_EMPTY_BLOCK_OF_DIRECTORY_ENTRIES, DEVICE_READ_ERROR,
                           DEVICE_WRITE_ERROR, UNABLE_TO_READ_FAT_TABLE_SECTOR, UNABLE_TO_WRITE_FAT_TABLE_SECTOR}
      ensures r.Success? ==>
                && undone && IsAt(r.value, at)
                && if Misled(old(Slots()), n, entriesPerCluster) then |Slots()| < at + n else FirstRoom(Slots(), at, n)
      ensures r == Failure(UNABLE_TO_FIND_EMPTY_BLOCK_OF_DIRECTORY_ENTRIES) ==> 2 * entriesPerCluster < n
    {
      hide *;
      ghost var s0, c0, slots0, e := adapter.device.storage, chain, Slots(), entriesPerCluster;
      StartOfSearch();
      at, added, undone, steps := 0, [], true, [];
      ghost var fat0, before, more := adapter.Fat(), slots0, [];
      NoSteps(fat0, Owned(c0));
      OneClusterAtLeast();
      PassesBegin(slots0, n, e);
      var retries: nat, count: nat, start := 0, 0, EntryAddress(0, 0);
      while retries < 3
        invariant Valid() && adapter.Valid() && undone && count < n
        invariant Slots() == slots0 + added == before + more && AllEnds(added) && |added| == retries * e
        invariant Confined(adapter.layout, s0, c0, firstCluster, adapter.device.storage, chain)
        invariant retries == 3 ==> 2 * e < n
        invariant c0 <= chain && !IsOpen(steps)
        invariant Leads(fat0, Owned(c0), steps, adapter.Fat(), Owned(chain))
        invariant Passes(slots0, before, more, n, e, retries, count)
        invariant 0 < count && !InUse(slots0[0]) ==> count <= |before| && IsAt(start, |before| - count)
        decreases 3 - retries
      {
        ghost var slots, carried := Slots(), count;
        var code, found;
        code, found, count, start, at := FindInPass(n, count, start);
        if code != SUCCESS {
          return Failure(code), at, added, undone, steps;
        }
        if found {
          at := PassFound(slots0, before, more, n, e, retries, carried, at);
          return Success(start), at, added, undone, steps;
        }
        NoRoomInEnds(slots0, added, n);
        PassFailed(slots0, before, more, n, e, retries, carried);
        ghost var s1, c1, fat1, next := adapter.device.storage, chain, adapter.Fat(), [];
        code, undone, more, next := GrowForSearch(start, 0 < count && !InUse(slots0[0]), |slots| - count);
        LeadsOn(fat0, Owned(c0), steps, fat1, Owned(c1), next, adapter.Fat(), Owned(chain));
        steps := steps + next;
        ConfinedTransitive(adapter.layout, s0, c0, firstCluster, s1, c1, adapter.device.storage, chain);
        if code != SUCCESS {
          return Failure(code), at, added, undone, steps;
        }
        EndsJoin(slots0, added, more);
        EndsAreVacant(more);
        PassesGoOn(slots0, slots, more, n, e, retries, count);
        before, added := slots, added + more;
        retries := retries + 1;
      }
      return Failure(UNABLE_TO_FIND_EMPTY_BLOCK_OF_DIRECTORY_ENTRIES), at, added, undone, steps;
    }

    lemma OneClusterAtLeast()
      requires Valid() && Slots() != []
      ensures entriesPerCluster <= |Slots()|
    {
      hide SlotsOf, DirectoryOn;
      ProductMonotone(1, |chain|, entriesPerCluster);
    }

    /** `AddNewCluster`, where the search remembers the place of a slot. */
    method GrowForSearch(start: EntryAddress, ghost tracked: bool, ghost at: int)
      returns (r: ResultCode, ghost undone: bool, ghost added: seq<Slot>, ghost steps: seq<Step>)
      requires Valid() && (tracked ==> 0 <= at && IsAt(start, at))
      modifies adapter.device, adapter`lastEmptyClusterFound, this`chain
      ensures adapter.device.reliable ==> r in {SUCCESS, DEVICE_FULL}
      ensures r in {SUCCESS, DEVICE_FULL, DEVICE_WRITE_ERROR, UNABLE_TO_READ_FAT_TABLE_SECTOR,
                    UNABLE_TO_WRITE_FAT_TABLE_SECTOR}
      ensures adapter.Valid()
      ensures Leads(old(adapter.Fat()), Owned(old(chain)), steps, adapter.Fat(), Owned(chain))
      ensures undone == !IsOpen(steps) && (adapter.device.reliable ==> undone)
      ensures adapter.device.reliable && r == DEVICE_FULL ==> adapter.NothingFreeBut(0)
      ensures Confined(adapter.layout, old(adapter.device.storage), old(chain), firstCluster,
                       adapter.device.storage, chain)
      ensures r == SUCCESS ==>
                && undone && Valid()
                && Slots() == old(Slots()) + added && |added| == entriesPerCluster && AllEnds(added)
                && old(chain) <= chain && (tracked ==> IsAt(start, at))
      ensures r != SUCCESS ==> chain == old(chain) && (undone ==> Valid() && Slots() == old(Slots()))
    {
      hide *;
      ghost var c0, place: nat := chain, 0;
      if tracked {
        place := PlaceOf(start, at);
      }
      r, undone, added, steps := AddNewCluster();
      if tracked && r == SUCCESS {
        AtPlace(start, at, place);
      }
    }

    lemma StartOfSearch()
      requires Valid()
      ensures adapter.Valid() && AllEnds([])
      ensures Confined(adapter.layout, adapter.device.storage, chain, firstCluster, adapter.device.storage, chain)
    {
    }

    // -------------------------------------------------------------- writing entries

    /** The buffer shows the cluster at `place`, and `index` is a slot of it. */
    ghost predicate InHand(cluster: nat, buffer: seq<byte>, index: nat, place: nat)
      reads this`chain
    {
      && place < |chain| && chain[place] == cluster && |buffer| == adapter.layout.bytesPerCluster
      && index < entriesPerCluster
    }

    ghost function NumberOf(place: nat, index: nat): nat
    {
      Product(place, entriesPerCluster) + index
    }

    lemma InHandSlot(cluster: nat, buffer: seq<byte>, index: nat, place: nat, s: Slot)
      requires Valid() && InHand(cluster, buffer, index, place)
      ensures HasEntry(buffer, index) && NumberOf(place, index) < |Slots()|
      ensures Overlay(place, buffer)[NumberOf(place, index)] == SlotAt(buffer, index)
      ensures |WithSlot(buffer, index, s)| == |buffer|
      ensures Overlay(place, WithSlot(buffer, index, s)) == Overlay(place, buffer)[NumberOf(place, index) := s]
    {
      hide SlotsOf, Overlaid;
      OverlaidAt(adapter.layout, adapter.device.storage, chain, firstCluster, place, buffer, index);
      OverlaidPatched(adapter.layout, adapter.device.storage, chain, firstCluster, place, buffer, index, s);
    }

    lemma LookInHand(cluster: nat, buffer: seq<byte>, index: nat, place: nat)
      requires Valid() && InHand(cluster, buffer, index, place)
      ensures chain[place] == cluster && HasEntry(buffer, index) && NumberOf(place, index) < |Slots()|
      ensures Overlay(place, buffer)[NumberOf(place, index)] == SlotAt(buffer, index)
    {
      hide SlotsOf, Overlaid;
      OverlaidAt(adapter.layout, adapter.device.storage, chain, firstCluster, place, buffer, index);
    }

    /** Writes the buffer back and reads the next cluster of the chain. */
    method CrossOver(cluster: nat, buffer: seq<byte>, ghost place: nat)
      returns (r: ResultCode, next: nat, nextBuffer: seq<byte>, ghost written: bool)
      requires Valid() && InHand(cluster, buffer, 0, place)
      modifies adapter.device
      ensures r in {SUCCESS, DEVICE_READ_ERROR, DEVICE_WRITE_ERROR, UNABLE_TO_READ_FAT_TABLE_SECTOR,
                    CLUSTER_OUT_OF_RANGE}
      ensures r == CLUSTER_OUT_OF_RANGE ==> place == |chain| - 1
      ensures adapter.device.reliable ==> place < |chain| - 1 ==> r == SUCCESS
      ensures Valid() && adapter.Valid() && adapter.Fat() == old(adapter.Fat())
      ensures Confined(adapter.layout, old(adapter.device.storage), chain, firstCluster,
                       adapter.device.storage, chain)
      ensures place == |chain| - 1 ==> r != SUCCESS
      ensures Slots() == if written then old(Overlay(place, buffer)) else old(Slots())
      ensures r == SUCCESS ==> written
      ensures r == SUCCESS ==>
                && place < |chain| - 1 && InHand(next, nextBuffer, 0, place + 1)
                && Overlay(place + 1, nextBuffer) == old(Overlay(place, buffer))
    {
      hide Valid, Overlay, Confined, Slots;
      StartOfSearch();
      next, nextBuffer, written := 0, [], false;
      var ok := Flush(cluster, buffer, place);
      written := ok;
      if !ok {
        return DEVICE_WRITE_ERROR, next, nextBuffer, written;
      }
      var behind := Behind(cluster, place);
      if behind.Failure? {
        return behind.code, next, nextBuffer, written;
      }
      if behind.value >= EOFThreshold {
        return CLUSTER_OUT_OF_RANGE, next, nextBuffer, written;
      }
      next := behind.value;
      var block := Load(next, place + 1);
      if block.None? {
        return DEVICE_READ_ERROR, next, nextBuffer, written;
      }
      nextBuffer := block.value;
      return SUCCESS, next, nextBuffer, written;
    }

    /** Puts a slot into the buffer and steps to the next one, in the next cluster if need be. */
    method PutSlot(cluster: nat, buffer: seq<byte>, index: nat, s: Slot, ghost place: nat)
      returns (r: ResultCode, wasEnd: bool, nextCluster: nat, nextBuffer: seq<byte>, nextIndex: nat,
               ghost nextPlace: nat, ghost written: bool)
      requires Valid() && InHand(cluster, buffer, index, place)
      requires NumberOf(place, index) + 1 < |Slots()|
      modifies adapter.device
      ensures r in {SUCCESS, DEVICE_READ_ERROR, DEVICE_WRITE_ERROR, UNABLE_TO_READ_FAT_TABLE_SECTOR}
      ensures adapter.device.reliable ==> r == SUCCESS
      ensures Valid() && adapter.Valid() && adapter.Fat() == old(adapter.Fat())
      ensures Confined(adapter.layout, old(adapter.device.storage), chain, firstCluster,
                       adapter.device.storage, chain)
      ensures Slots() == if written then old(Overlay(place, buffer))[NumberOf(place, index) := s] else old(Slots())
      ensures r == SUCCESS ==>
                && InHand(nextCluster, nextBuffer, nextIndex, nextPlace)
                && nextPlace < |chain| && |nextBuffer| == adapter.layout.bytesPerCluster
                && NumberOf(nextPlace, nextIndex) == NumberOf(place, index) + 1
                && wasEnd == IsUnusedAndEnd(old(Overlay(place, buffer))[NumberOf(place, index)])
                && Overlay(nextPlace, nextBuffer) == old(Overlay(place, buffer))[NumberOf(place, index) := s]
    {
      hide Valid, Overlay, Slots, Confined, WithSlot, IsUnusedAndEnd;
      InHandSlot(cluster, buffer, index, place, s);
      StartOfSearch();
      wasEnd := IsUnusedAndEnd(SlotAt(buffer, index));
      nextBuffer := WithSlot(buffer, index, s);
      nextCluster, nextIndex, nextPlace := cluster, index + 1, place;
      r, written := SUCCESS, false;
      if nextIndex >= entriesPerCluster {
        MoreClusters(place);
        nextIndex, nextPlace := 0, place + 1;
        r, nextCluster, nextBuffer, written := CrossOver(cluster, nextBuffer, place);
      }
    }

    /** A slot behind the last one of a cluster is in the next cluster. */
    lemma MoreClusters(place: nat)
      requires Valid() && place < |chain|
      ensures Product(place + 1, entriesPerCluster) == Product(place, entriesPerCluster) + entriesPerCluster
      ensures Product(place + 1, entriesPerCluster) < |Slots()| ==> place < |chain| - 1
      ensures adapter.Valid()
    {
    }

    /** Writes the long-name slots and the entry into the first room for them and one slot more. */
    method WriteLfnSequenceAndClusterEntry(entry: Slot, lfnEntries: seq<Slot>)
      returns (r: ResultCode, ghost at: nat, ghost added: seq<Slot>, ghost steps: seq<Step>,
               ghost put: nat)
      requires Valid() && SearchIsSound(Slots(), |lfnEntries| + 2, entriesPerCluster)
      modifies adapter.device, adapter`lastEmptyClusterFound, this`chain
      ensures adapter.Valid()
      ensures Leads(old(adapter.Fat()), Owned(old(chain)), steps, adapter.Fat(), Owned(chain))
      ensures r == SUCCESS || adapter.device.reliable ==> !IsOpen(steps)
      ensures r != SUCCESS && !IsOpen(steps) ==>
                && Valid() && AllEnds(added) && put <= |lfnEntries| + 1
                && (0 < put ==> FirstRoom(old(Slots()) + added, at, |lfnEntries| + 2))
                && Slots() == if put == 0 then old(Slots()) + added
                              else Partly(old(Slots()) + added, at, lfnEntries + [entry], put)
      ensures adapter.device.reliable && r != SUCCESS ==> put == 0
      ensures adapter.device.reliable ==> r in {SUCCESS, DEVICE_FULL, UNABLE_TO_FIND_EMPTY_BLOCK_OF_DIRECTORY_ENTRIES}
      ensures IsPlacingResult(r)
      ensures adapter.device.reliable && r == DEVICE_FULL ==> adapter.NothingFreeBut(0)
      ensures r == UNABLE_TO_FIND_EMPTY_BLOCK_OF_DIRECTORY_ENTRIES ==> 2 * entriesPerCluster < |lfnEntries| + 2
      ensures Confined(adapter.layout, old(adapter.device.storage), old(chain), firstCluster,
                       adapter.device.storage, chain)
      ensures old(chain) <= chain
      ensures r == SUCCESS ==>
                && Valid() && AllEnds(added) && FirstRoom(old(Slots()) + added, at, |lfnEntries| + 2)
                && Slots() == WrittenAt(old(Slots()) + added, at, lfnEntries + [entry])
    {
      hide *;
      ghost var s0, c0, undone := adapter.device.storage, chain, true;
      var room;
      SoundSearch(Slots(), |lfnEntries| + 2, entriesPerCluster);
      room, at, added, undone, steps := FindEmptyBlockOfEntries(|lfnEntries| + 2);
      if room.Failure? {
        PlacingResult(room.code);
        return room.code, at, added, steps, 0;
      }
      ghost var s1, c1 := adapter.device.storage, chain;
      ghost var slots := Slots();
      RoomFits(slots, at, |lfnEntries| + 2);
      NothingPartly(slots, at, lfnEntries + [entry]);
      r, put := WriteRun(room.value, at, entry, lfnEntries);
      PlacingResult(r);
      ConfinedTransitive(adapter.layout, s0, c0, firstCluster, s1, c1, adapter.device.storage, chain);
    }

    method WriteRun(room: EntryAddress, ghost at: nat, entry: Slot, lfnEntries: seq<Slot>)
      returns (r: ResultCode, ghost put: nat)
      requires Valid() && IsAt(room, at) && FirstRoom(Slots(), at, |lfnEntries| + 2)
      modifies adapter.device
      ensures r in {SUCCESS, DEVICE_READ_ERROR, DEVICE_WRITE_ERROR, UNABLE_TO_READ_FAT_TABLE_SECTOR}
      ensures adapter.device.reliable ==> r == SUCCESS
      ensures Valid() && adapter.Valid() && adapter.Fat() == old(adapter.Fat())
      ensures Confined(adapter.layout, old(adapter.device.storage), chain, firstCluster,
                       adapter.device.storage, chain)
      ensures r != SUCCESS ==>
                put <= |lfnEntries| + 1 && Slots() == Partly(old(Slots()), at, lfnEntries + [entry], put)
      ensures r == SUCCESS ==> Slots() == WrittenAt(old(Slots()), at, lfnEntries + [entry])
    {
      hide *;
      StartOfSearch();
      put := 0;
      RoomFits(Slots(), at, |lfnEntries| + 2);
      ghost var slots, s0, entries := Slots(), adapter.device.storage, lfnEntries + [entry];
      ghost var place: nat := PlaceOf(room, at);
      ghost var fat0 := adapter.Fat();
      NothingPartly(slots, at, entries);
      var block := Load(room.cluster, place);
      if block.None? {
        return DEVICE_READ_ERROR, put;
      }
      var cluster: nat, buffer, index: nat, isEnd := room.cluster, block.value, room.index, false;
      PutInHand(room, at, buffer, place);
      for i := 0 to |lfnEntries|
        invariant Valid() && adapter.Valid() && InHand(cluster, buffer, index, place)
        invariant place < |chain| && |buffer| == adapter.layout.bytesPerCluster
        invariant Overlay(place, buffer) == Partly(slots, at, entries, i) && NumberOf(place, index) == at + i
        invariant adapter.Fat() == fat0
        invariant put <= i && Slots() == Partly(slots, at, entries, put)
        invariant isEnd == EndAmong(slots, at, i)
        invariant Confined(adapter.layout, s0, chain, firstCluster, adapter.device.storage, chain)
      {
        PartlyOn(slots, at, entries, i);
        ghost var s1 := adapter.device.storage;
        var wasEnd;
        ghost var written;
        r, wasEnd, cluster, buffer, index, place, written := PutSlot(cluster, buffer, index, lfnEntries[i], place);
        ConfinedTransitive(adapter.layout, s0, chain, firstCluster, s1, chain, adapter.device.storage, chain);
        put := if written then i + 1 else put;
        if r != SUCCESS {
          return;
        }
        isEnd := isEnd || wasEnd;
      }
      PartlyDone(slots, at, lfnEntries, entry);
      ghost var s2 := adapter.device.storage;
      ghost var written;
      PartlyOn(slots, at, entries, |lfnEntries|);
      r, written := WriteEntry(cluster, buffer, index, place, entry, isEnd);
      put := if written then |lfnEntries| + 1 else put;
      ConfinedTransitive(adapter.layout, s0, chain, firstCluster, s2, chain, adapter.device.storage, chain);
    }

    lemma PlaceOf(a: EntryAddress, at: nat) returns (place: nat)
      requires Valid() && IsAt(a, at)
      ensures place < |chain| && chain[place] == a.cluster
      ensures a.index < entriesPerCluster && at == Product(place, entriesPerCluster) + a.index
    {
      place :| place < |chain| && a.cluster == chain[place] && at == Product(place, entriesPerCluster) + a.index;
    }

    lemma AtPlace(a: EntryAddress, at: nat, place: nat)
      requires place < |chain| && chain[place] == a.cluster
      requires a.index < entriesPerCluster && at == Product(place, entriesPerCluster) + a.index
      ensures IsAt(a, at)
    {
    }

    lemma PutInHand(a: EntryAddress, at: nat, buffer: seq<byte>, place: nat)
      requires place < |chain| && chain[place] == a.cluster && |buffer| == adapter.layout.bytesPerCluster
      requires a.index < entriesPerCluster && at == Product(place, entriesPerCluster) + a.index
      ensures InHand(a.cluster, buffer, a.index, place) && NumberOf(place, a.index) == at
    {
    }

    method WriteEntry(cluster: nat, buffer: seq<byte>, index: nat, ghost place: nat, entry: Slot, isEnd: bool)
      returns (r: ResultCode, ghost written: bool)
      requires Valid() && InHand(cluster, buffer, index, place) && NumberOf(place, index) + 1 < |Slots()|
      modifies adapter.device
      ensures r in {SUCCESS, DEVICE_READ_ERROR, DEVICE_WRITE_ERROR, UNABLE_TO_READ_FAT_TABLE_SECTOR}
      ensures adapter.device.reliable ==> r == SUCCESS
      ensures Valid() && adapter.Valid() && adapter.Fat() == old(adapter.Fat())
      ensures Confined(adapter.layout, old(adapter.device.storage), chain, firstCluster,
                       adapter.device.storage, chain)
      ensures r != SUCCESS ==>
                Slots() == if written then old(Overlay(place, buffer))[NumberOf(place, index) := entry]
                           else old(Slots())
      ensures r == SUCCESS ==> Slots() == old(Finished(Overlay(place, buffer), NumberOf(place, index), entry, isEnd))
    {
      hide Valid, Overlay, Slots, Confined, IsUnusedAndEnd;
      ghost var slots, n, s0 := Overlay(place, buffer), NumberOf(place, index), adapter.device.storage;
      var wasEnd, current, block, next;
      ghost var nextPlace;
      r, wasEnd, current, block, next, nextPlace, written := PutSlot(cluster, buffer, index, entry, place);
      if r != SUCCESS {
        return;
      }
      if isEnd || wasEnd {
        InHandSlot(current, block, next, nextPlace, entry);
        InHandSlot(current, block, next, nextPlace, EndMarked(block, next));
        block := WithSlot(block, next, EndMarked(block, next));
      }
      ghost var s1 := adapter.device.storage;
      var ok := Flush(current, block, nextPlace);
      ConfinedTransitive(adapter.layout, s0, chain, firstCluster, s1, chain, adapter.device.storage, chain);
      r := if ok then SUCCESS else DEVICE_WRITE_ERROR;
    }

    /** A slot of the buffer with its first byte set to the end mark. */
    function EndMarked(block: seq<byte>, index: nat): Slot
      requires HasEntry(block, index)
    {
      SlotAt(block, index)[0 := LastAndUnusedMark]
    }

    // -------------------------------------------------------------- removing entries

    /** Steps to the slot before.  At the start of a cluster the buffer is written back and the
        cluster before it read; `written` says that the first of these happened.  The cluster before is
        looked for from `head` on, which is the directory's first cluster or 0. */
    method StepBack(head: nat, cluster: nat, buffer: seq<byte>, index: nat, ghost place: nat)
      returns (r: ResultCode, written: bool, before: nat, beforeBuffer: seq<byte>, beforeIndex: nat,
               ghost beforePlace: nat)
      requires Valid() && InHand(cluster, buffer, index, place) && head in {0, firstCluster}
      modifies adapter.device
      ensures adapter.device.reliable ==> r in {SUCCESS, ALREADY_AT_FIRST_CLUSTER, CLUSTER_OUT_OF_RANGE}
      ensures Valid() && adapter.Valid() && adapter.Fat() == old(adapter.Fat())
      ensures Confined(adapter.layout, old(adapter.device.storage), chain, firstCluster,
                       adapter.device.storage, chain)
      ensures Slots() == if written then old(Overlay(place, buffer)) else old(Slots())
      ensures r == SUCCESS ==>
                && InHand(before, beforeBuffer, beforeIndex, beforePlace)
                && beforePlace < |chain| && |beforeBuffer| == adapter.layout.bytesPerCluster
                && NumberOf(place, index) == NumberOf(beforePlace, beforeIndex) + 1
                && Overlay(beforePlace, beforeBuffer) == old(Overlay(place, buffer))
      ensures r == ALREADY_AT_FIRST_CLUSTER ==> written
      ensures r in {SUCCESS, ALREADY_AT_FIRST_CLUSTER, CLUSTER_OUT_OF_RANGE, DEVICE_READ_ERROR, DEVICE_WRITE_ERROR,
                    UNABLE_TO_READ_FAT_TABLE_SECTOR}
      ensures r == CLUSTER_OUT_OF_RANGE ==> written && head == 0 && index == 0
      ensures r == SUCCESS && head == 0 ==> beforeIndex + 1 == index
      ensures r == ALREADY_AT_FIRST_CLUSTER ==> NumberOf(place, index) == 0
      ensures NumberOf(place, index) == 0 ==> r != SUCCESS
    {
      hide Valid, Overlay, Slots, Confined;
      StartOfSearch();
      written := false;
      before, beforeBuffer, beforeIndex, beforePlace := cluster, buffer, index, place;
      if index != 0 {
        beforeIndex := index - 1;
        return SUCCESS, written, before, beforeBuffer, beforeIndex, beforePlace;
      }
      written := Flush(cluster, buffer, place);
      if !written {
        r := DEVICE_WRITE_ERROR;
        return;
      }
      var previous;
      previous, beforePlace := ClusterBefore(head, cluster, place);
      if previous.Failure? {
        r := previous.code;
        return;
      }
      MoreClusters(beforePlace);
      before, beforeIndex := previous.value, entriesPerCluster - 1;
      var block := Load(before, beforePlace);
      if block.None? {
        r := DEVICE_READ_ERROR;
        return;
      }
      beforeBuffer := block.value;
      r := SUCCESS;
    }

    method ClusterBefore(head: nat, cluster: nat, ghost place: nat) returns (previous: Result<nat>, ghost at: nat)
      requires Valid() && place < |chain| && chain[place] == cluster && head in {0, firstCluster}
      ensures adapter.device.reliable && previous.Failure? ==>
                previous.code in {ALREADY_AT_FIRST_CLUSTER, CLUSTER_OUT_OF_RANGE}
      ensures head == 0 ==> previous == Failure(CLUSTER_OUT_OF_RANGE)
      ensures at < |chain|
      ensures previous.Success? ==> place == at + 1 && previous.value == chain[at]
      ensures previous.Failure? ==>
                previous.code in {ALREADY_AT_FIRST_CLUSTER, CLUSTER_OUT_OF_RANGE, UNABLE_TO_READ_FAT_TABLE_SECTOR}
      ensures previous == Failure(CLUSTER_OUT_OF_RANGE) ==> head == 0
      ensures previous == Failure(ALREADY_AT_FIRST_CLUSTER) ==> place == 0
      ensures place == 0 ==> previous.Failure?
    {
      LinkAt(adapter.Fat(), chain, place);
      LinkAt(adapter.Fat(), chain, 0);
      WalkOfChain(adapter.layout, adapter.device.storage, chain, |chain|);
      previous, at := adapter.PreviousClusterInChain(head, cluster, |chain|);
      if head != 0 && cluster != head {
        FoundOnChain(adapter.layout, adapter.device.storage, chain, cluster, at);
      }
      if previous.Failure? {
        at := 0;
      }
    }

    /** The entry at `address`, read from the device. */
    method GetClusterEntry(address: EntryAddress, ghost i: nat) returns (s: Result<Slot>)
      requires Valid() && IsAt(address, i) && i < |Slots()|
      ensures adapter.device.reliable ==> s.Success?
      ensures s.Failure? ==> s.code == DEVICE_READ_ERROR
      ensures s.Success? ==> s.value == Slots()[i]
    {
      hide *;
      StartOfSearch();
      ghost var place: nat := PlaceOf(address, i);
      var block := Load(address.cluster, place);
      if block.None? {
        return Failure(DEVICE_READ_ERROR);
      }
      PutInHand(address, i, block.value, place);
      LookInHand(address.cluster, block.value, address.index, place);
      return Success(SlotAt(block.value, address.index));
    }

    /** Marks the entry at `address`, slot number `i`, and the long-name run in front of it as unused.
        Whatever fails, the directory either has not changed or has lost the entry and a last part of
        its run, from slot `from` on.  `head` is what the object takes for the directory's first cluster:
        that cluster, or 0, and then the walk does not get out of the cluster of the entry. */
    method RemoveEntry(head: nat, address: EntryAddress, ghost i: nat)
      returns (r: ResultCode, ghost from: nat, ghost removed: bool)
      requires Valid() && IsAt(address, i) && i < |Slots()| && head in {0, firstCluster}
      modifies adapter.device
      ensures adapter.device.reliable ==> removed && r in {SUCCESS, ALREADY_AT_FIRST_CLUSTER, CLUSTER_OUT_OF_RANGE}
      ensures r in {SUCCESS, ALREADY_AT_FIRST_CLUSTER, CLUSTER_OUT_OF_RANGE, DEVICE_READ_ERROR, DEVICE_WRITE_ERROR,
                    UNABLE_TO_READ_FAT_TABLE_SECTOR}
      ensures Valid() && adapter.Valid() && adapter.Fat() == old(adapter.Fat())
      ensures Confined(adapter.layout, old(adapter.device.storage), chain, firstCluster,
                       adapter.device.storage, chain)
      ensures Slots() == if removed then Removal(old(Slots()), from, i) else old(Slots())
      ensures removed ==> RunStart(old(Slots()), i) <= from <= i
      ensures r == SUCCESS ==>
                removed && from == RunStart(old(Slots()), i) && !WalkFallsOff(old(Slots()), i)
      ensures r == ALREADY_AT_FIRST_CLUSTER ==> removed && from == 0 && WalkFallsOff(old(Slots()), i)
      ensures r == CLUSTER_OUT_OF_RANGE ==>
                && removed && head == 0 && from + address.index == i
                && RunStart(old(Slots()), from) == RunStart(old(Slots()), i)
      ensures removed && head == 0 ==> i <= from + address.index
    {
      hide *;
      StartOfSearch();
      ghost var slots, s0 := Slots(), adapter.device.storage;
      from, removed := i, false;
      RunStarts(slots, i);
      ghost var place: nat := PlaceOf(address, i);
      var block := Load(address.cluster, place);
      if block.None? {
        r := DEVICE_READ_ERROR;
        return;
      }
      var cluster: nat, buffer, index: nat := address.cluster, block.value, address.index;
      PutInHand(address, i, buffer, place);
      LookInHand(cluster, buffer, index, place);
      InHandSlot(cluster, buffer, index, place, MarkedEntry(SlotAt(buffer, index)));
      buffer := WithSlot(buffer, index, MarkedEntry(SlotAt(buffer, index)));
      EntryRemoved(slots, i);
      StillInHand(cluster, block.value, buffer, index, place);
      var stillDeleting, dirty := true, true;
      ghost var at := i;
      while stillDeleting
        invariant Valid() && adapter.Valid() && InHand(cluster, buffer, index, place)
        invariant place < |chain| && |buffer| == adapter.layout.bytesPerCluster
        invariant Confined(adapter.layout, s0, chain, firstCluster, adapter.device.storage, chain)
        invariant Slots() == if removed then Removal(slots, from, i) else slots
        invariant NumberOf(place, index) <= at <= i && RunStart(slots, i) <= at <= from <= i
        invariant Overlay(place, buffer) == Removal(slots, at, i)
        invariant stillDeleting ==> NumberOf(place, index) == at && OnTheWay(slots, at, i)
        invariant !stillDeleting ==> at == RunStart(slots, i) && !WalkFallsOff(slots, i)
        invariant !dirty ==> removed && from == at
        invariant adapter.Fat() == old(adapter.Fat())
        invariant head == 0 ==> NumberOf(place, index) + address.index == i + index
        decreases stillDeleting, at
      {
        ghost var s1, before, overlay := adapter.device.storage, at, Overlay(place, buffer);
        var written;
        r, written, cluster, buffer, index, place := StepBack(head, cluster, buffer, index, place);
        ConfinedTransitive(adapter.layout, s0, chain, firstCluster, s1, chain, adapter.device.storage, chain);
        if written {
          from, removed := at, true;
          dirty := false;
        }
        if r != SUCCESS {
          FellOff(slots, at, i);
          return;
        }
        ghost var previous := NumberOf(place, index);
        OneBack(slots, previous, at, i);
        LookInHand(cluster, buffer, index, place);
        if IsLong(SlotAt(buffer, index)) {
          stillDeleting := !IsFirstLong(SlotAt(buffer, index));
          ghost var was := buffer;
          InHandSlot(cluster, buffer, index, place, Marked(SlotAt(buffer, index)));
          buffer := WithSlot(buffer, index, Marked(SlotAt(buffer, index)));
          StillInHand(cluster, was, buffer, index, place);
          dirty := true;
          at := previous;
        } else {
          stillDeleting := false;
        }
      }
      if dirty {
        LookInHand(cluster, buffer, index, place);
        ghost var s1 := adapter.device.storage;
        var ok := Flush(cluster, buffer, place);
        ConfinedTransitive(adapter.layout, s0, chain, firstCluster, s1, chain, adapter.device.storage, chain);
        if !ok {
          r := DEVICE_WRITE_ERROR;
          return;
        }
        from, removed := at, true;
      }
      r := SUCCESS;
    }

    lemma StillInHand(cluster: nat, before: seq<byte>, after: seq<byte>, index: nat, place: nat)
      requires InHand(cluster, before, index, place) && |after| == |before|
      ensures InHand(cluster, after, index, place)
    {
    }
  }

  /** `RemovedFrom`, for slot numbers that are in order. */
  ghost function Removal(slots: seq<Slot>, from: nat, i: nat): (r: seq<Slot>)
    ensures |r| == |slots|
  {
    if from <= i < |slots| then RemovedFrom(slots, from, i) else slots
  }

  /** The walk back from slot `i` has come to slot `at` and goes on. */
  ghost predicate OnTheWay(slots: seq<Slot>, at: nat, i: nat)
  {
    at <= i < |slots| && RunStart(slots, at) == RunStart(slots, i) && WalkFallsOff(slots, at) == WalkFallsOff(slots, i)
  }

  lemma RunStarts(slots: seq<Slot>, i: nat)
    requires i < |slots|
    ensures RunStart(slots, i) <= i && OnTheWay(slots, i, i)
  {
  }

  lemma EntryRemoved(slots: seq<Slot>, i: nat)
    requires i < |slots|
    ensures slots[i := MarkedEntry(slots[i])] == Removal(slots, i, i)
  {
  }

  lemma FellOff(slots: seq<Slot>, at: nat, i: nat)
    requires OnTheWay(slots, at, i)
    ensures at == 0 ==> WalkFallsOff(slots, i)
    ensures RunStart(slots, at) == RunStart(slots, i)
  {
  }

  /** One step of the walk. */
  lemma OneBack(slots: seq<Slot>, previous: nat, at: nat, i: nat)
    requires OnTheWay(slots, at, i) && at == previous + 1
    ensures Removal(slots, at, i)[previous] == slots[previous]
    ensures Removal(slots, at, i)[previous := Marked(slots[previous])] == Removal(slots, previous, i)
    ensures !IsLong(slots[previous]) ==> at == RunStart(slots, i) && !WalkFallsOff(slots, i)
    ensures IsLong(slots[previous]) && IsFirstLong(slots[previous]) ==>
              previous == RunStart(slots, i) && !WalkFallsOff(slots, i)
    ensures IsLong(slots[previous]) && !IsFirstLong(slots[previous]) ==>
              OnTheWay(slots, previous, i) && RunStart(slots, i) <= previous
  {
  }

  lemma RoomFits(slots: seq<Slot>, at: nat, n: nat)
    requires FirstRoom(slots, at, n)
    ensures at + n <= |slots|
  {
  }

  /** The first `i` of the entries written over the slots from `at` on. */
  ghost function Partly(slots: seq<Slot>, at: nat, entries: seq<Slot>, i: nat): (r: seq<Slot>)
    requires i <= |entries| && at + |entries| < |slots|
    ensures |r| == |slots|
  {
    slots[..at] + entries[..i] + slots[at + i..]
  }

  /** One of the first `i` slots from `at` on is an end mark. */
  ghost predicate EndAmong(slots: seq<Slot>, at: nat, i: nat)
    requires at + i <= |slots|
  {
    exists j :: at <= j < at + i && IsUnusedAndEnd(slots[j])
  }

  lemma NothingPartly(slots: seq<Slot>, at: nat, entries: seq<Slot>)
    requires at + |entries| < |slots|
    ensures Partly(slots, at, entries, 0) == slots && !EndAmong(slots, at, 0)
  {
  }

  lemma PartlyOn(slots: seq<Slot>, at: nat, entries: seq<Slot>, i: nat)
    requires i < |entries| && at + |entries| < |slots|
    ensures Partly(slots, at, entries, i)[at + i] == slots[at + i]
    ensures Partly(slots, at, entries, i)[at + i := entries[i]] == Partly(slots, at, entries, i + 1)
    ensures EndAmong(slots, at, i + 1) == (EndAmong(slots, at, i) || IsUnusedAndEnd(slots[at + i]))
  {
  }

  /** The slots with the entry put at `n`, and an end mark behind it where one has been overwritten. */
  ghost function Finished(slots: seq<Slot>, n: nat, entry: Slot, isEnd: bool): seq<Slot>
    requires n + 1 < |slots|
  {
    var done, behind := slots[n := entry], slots[n + 1];
    if isEnd || IsUnusedAndEnd(slots[n]) then done[n + 1 := behind[0 := LastAndUnusedMark]] else done
  }

  /** The entry put behind its long-name slots finishes the run. */
  lemma PartlyDone(slots: seq<Slot>, at: nat, longName: seq<Slot>, entry: Slot)
    requires at + |longName| + 1 < |slots|
    ensures Finished(Partly(slots, at, longName + [entry], |longName|), at + |longName|, entry,
                     EndAmong(slots, at, |longName|))
            == WrittenAt(slots, at, longName + [entry])
  {
    hide IsUnusedAndEnd;
    var entries, n := longName + [entry], |longName| + 1;
    PartlyOn(slots, at, entries, |longName|);
    assert entries[..n] == entries;
    assert Partly(slots, at, entries, n) == slots[..at] + entries + slots[at + n..];
  }

  lemma EndsJoin(slots: seq<Slot>, a: seq<Slot>, b: seq<Slot>)
    requires AllEnds(a) && AllEnds(b)
    ensures AllEnds(a + b) && slots + a + b == slots + (a + b)
  {
  }

  /** Where there is no room for `n` slots, fewer than `n` end marks follow. */
  lemma NoRoomInEnds(slots: seq<Slot>, added: seq<Slot>, n: nat)
    requires AllEnds(added) && NoRoomUpTo(slots + added, |slots + added|, n)
    ensures |added| < n
  {
    assert Vacant(slots + added, |slots|, |slots + added|);
    VacantCounts(slots + added, |slots|, |slots + added|);
  }

  lemma VacantMarks(s: Slot)
    ensures IsUnused(s) || IsUnusedAndEnd(s) <==> !InUse(s)
  {
  }

  lemma EndsAreVacant(added: seq<Slot>)
    requires AllEnds(added)
    ensures Vacant(added, 0, |added|)
  {
  }

  lemma VacantStep(slots: seq<Slot>, p: nat)
    requires p < |slots|
    ensures Vacant(slots, 0, p + 1) <==> Vacant(slots, 0, p) && !InUse(slots[p])
  {
  }

  datatype Location = BEGIN | MID | END

  lemma ScanStandard(slots: seq<Slot>, at: nat, held: seq<Slot>)
    requires at < |slots| && IsStandard(slots[at])
    ensures Scan(slots, at, held) == [Item(slots[at], held)] + Scan(slots, at + 1, [])
  {
  }

  lemma ScanAtEnd(slots: seq<Slot>, held: seq<Slot>)
    ensures Scan(slots, |slots|, held) == []
  {
  }

  lemma ScanOther(slots: seq<Slot>, at: nat, held: seq<Slot>)
    requires at < |slots| && !IsStandard(slots[at])
    ensures Scan(slots, at, held)
            == if IsUnusedAndEnd(slots[at]) then []
               else Scan(slots, at + 1, if IsLong(slots[at]) then Collect(held, slots[at]) else [])
  {
    assert [] + Scan(slots, at + 1, After(held, slots[at])) == Scan(slots, at + 1, After(held, slots[at]));
  }

  /** The iterator over a directory: over its slots, or over its entries with their long names. */
  class DirectoryIterator {
    const directory: DirectoryCluster
    var location: Location
    var buffer: seq<byte>
    var bufferIsEmpty: bool
    var current: EntryAddress
    var lfnEntries: seq<Slot>

    // Which cluster of the directory's chain the current one is.
    ghost var place: nat

    constructor (d: DirectoryCluster)
      requires d.Valid()
      ensures Valid() && directory == d && location == BEGIN
    {
      directory, location := d, BEGIN;
      buffer, bufferIsEmpty := [], true;
      current, place := EntryAddress(d.firstCluster, 0), 0;
      lfnEntries := [];
    }

    /** The address is that of a slot, and a buffer that is not empty shows its cluster. */
    ghost predicate Placed()
      reads this`current, this`place, this`buffer, this`bufferIsEmpty
      reads directory, directory.adapter, directory.adapter.device
    {
      && directory.Valid() && place < |directory.chain| && current.cluster == directory.chain[place]
      && current.index < directory.entriesPerCluster
      && (!bufferIsEmpty ==>
            && |buffer| == directory.adapter.layout.bytesPerCluster
            && directory.Overlay(place, buffer) == directory.Slots())
    }

    ghost predicate Valid()
      reads this`location, this`current, this`place, this`buffer, this`bufferIsEmpty
      reads directory, directory.adapter, directory.adapter.device
    {
      && Placed() && (location.BEGIN? ==> place == 0 && current.index == 0)
      && (location.MID? ==> !bufferIsEmpty)
    }

    /** The number of the current slot in the directory. */
    ghost function Position(): nat
      reads this`current, this`place
    {
      Product(place, directory.entriesPerCluster) + current.index
    }

    /** The number of the slot that comes next. */
    ghost function Upcoming(): nat
      requires directory.Valid()
      reads this`location, this`current, this`place, directory, directory.adapter, directory.adapter.device
    {
      match location
      case BEGIN => 0
      case MID => Position()
      case END => |directory.Slots()|
    }

    lemma UpcomingAtStart()
      requires Valid() && location == BEGIN
      ensures Upcoming() == 0
    {
    }

    lemma AddressOfCurrent()
      requires Valid() && location == MID
      ensures directory.IsAt(current, Upcoming())
    {
    }

    method ReadBufferIfEmpty() returns (r: ResultCode)
      requires Placed()
      modifies this`buffer, this`bufferIsEmpty
      ensures directory.adapter.device.reliable ==> r == SUCCESS
      ensures Placed()
      ensures r == if bufferIsEmpty then DEVICE_READ_ERROR else SUCCESS
    {
      if bufferIsEmpty {
        var block := directory.Load(current.cluster, place);
        if block.None? {
          return DEVICE_READ_ERROR;
        }
        buffer, bufferIsEmpty := block.value, false;
      }
      return SUCCESS;
    }

    /** Moves to the next slot, or to the end behind the last one. */
    method AdvanceCurrentEntry() returns (r: ResultCode)
      requires Valid() && location == MID
      modifies this`location, this`buffer, this`bufferIsEmpty, this`current, this`place
      ensures directory.adapter.device.reliable ==> r == SUCCESS
      ensures r in {SUCCESS, DEVICE_READ_ERROR, UNABLE_TO_READ_FAT_TABLE_SECTOR}
      ensures r == SUCCESS ==>
                && Valid() && location != BEGIN && Upcoming() == old(Upcoming()) + 1
                && (location == END <==> Upcoming() == |directory.Slots()|)
                && Upcoming() <= |directory.Slots()|
    {
      hide DirectoryOn, SlotsOf, Overlaid;
      MoreSlots();
      current := current.(index := current.index + 1);
      if current.index >= directory.entriesPerCluster {
        var next := directory.Behind(current.cluster, place);
        if next.Failure? {
          return next.code;
        }
        if next.value == EndOfFile {
          current := current.(index := current.index - 1);
          location := END;
          return SUCCESS;
        }
        current := EntryAddress(next.value, 0);
        place := place + 1;
        bufferIsEmpty := true;
      }
      r := ReadBufferIfEmpty();
    }

    /** Where the current slot lies among all. */
    lemma MoreSlots()
      requires Placed()
      ensures Product(place + 1, directory.entriesPerCluster)
              == Product(place, directory.entriesPerCluster) + directory.entriesPerCluster <= |directory.Slots()|
      ensures place < |directory.chain| - 1 ==>
                Product(place + 1, directory.entriesPerCluster) < |directory.Slots()|
    {
      ProductMonotone(place + 1, |directory.chain|, directory.entriesPerCluster);
    }

    /** The slot iterator's step. */
    method NextSlot() returns (r: ResultCode)
      requires Valid()
      modifies this`location, this`buffer, this`bufferIsEmpty, this`current, this`place
      ensures directory.adapter.device.reliable ==> r == SUCCESS
      ensures r in {SUCCESS, DEVICE_READ_ERROR, UNABLE_TO_READ_FAT_TABLE_SECTOR}
      ensures r == SUCCESS ==>
                && Valid() && location != BEGIN
                && (location == MID ==> Upcoming() < |directory.Slots()|)
                && Upcoming() == (if old(location) == MID then old(Upcoming()) + 1 else old(Upcoming()))
                && (old(location) == MID ==> (location == END <==> Upcoming() == |directory.Slots()|))
                && (old(location) == BEGIN ==> location == MID)
                && (old(location) == END ==> location == END)
    {
      hide DirectoryOn, SlotsOf, Overlaid;
      if location == BEGIN {
        MoreSlots();
        current := current.(index := 0);
        location := MID;
      } else if location == MID {
        r := AdvanceCurrentEntry();
        if r != SUCCESS {
          return;
        }
      }
      if location == END {
        return SUCCESS;
      }
      r := ReadBufferIfEmpty();
    }

    /** The slot the iterator stands on. */
    method AsClusterEntry() returns (s: Result<Slot>)
      requires Valid()
      modifies this`location, this`buffer, this`bufferIsEmpty, this`current, this`place
      ensures directory.adapter.device.reliable ==> (s.Failure? <==> old(location) == END)
      ensures old(location) == END <==> s == Failure(ITERATOR_AT_END)
      ensures s.Failure? ==> s.code in {DEVICE_READ_ERROR, UNABLE_TO_READ_FAT_TABLE_SECTOR, ITERATOR_AT_END}
      ensures s.Success? ==>
                && Valid() && location == MID && Upcoming() == old(Upcoming()) < |directory.Slots()|
                && s.value == directory.Slots()[Upcoming()]
                && HasEntry(buffer, current.index)
                && (old(location) == MID ==> Rest() == old(Rest()))
    {
      hide DirectoryOn, SlotsOf, Overlaid;
      if location == BEGIN {
        var r := NextSlot();
        if r != SUCCESS {
          return Failure(r);
        }
      }
      if location == END {
        return Failure(ITERATOR_AT_END);
      }
      OverlaidAt(directory.adapter.layout, directory.adapter.device.storage, directory.chain, directory.firstCluster,
                 place, buffer, current.index);
      return Success(SlotAt(buffer, current.index));
    }

    // -------------------------------------------------------------- entries with their long names

    /** What the entry iterator has still to report. */
    ghost function Rest(): seq<Item>
      requires directory.Valid()
      reads this`location, this`current, this`place, directory, directory.adapter, directory.adapter.device
    {
      if location == BEGIN then Listing(directory.Slots())
      else if location == MID && Upcoming() < |directory.Slots()| then Scan(directory.Slots(), Upcoming() + 1, [])
      else []
    }

    lemma RestAtStart()
      requires directory.Valid() && location == BEGIN
      ensures Rest() == Listing(directory.Slots())
    {
    }

    method AddLfnEntry(s: Slot)
      modifies this`lfnEntries
      ensures lfnEntries == Collect(old(lfnEntries), s)
    {
      if |lfnEntries| < MostLongEntries {
        lfnEntries := lfnEntries + [s];
      }
    }

    /** One turn of the search: stops at an entry or at an end mark, and otherwise moves on. */
    method LookAtSlot() returns (r: ResultCode, found: bool)
      requires directory.Valid() && Valid() && location == MID && Upcoming() < |directory.Slots()|
      modifies this`location, this`buffer, this`bufferIsEmpty, this`current, this`place, this`lfnEntries
      ensures r in {SUCCESS, DEVICE_READ_ERROR, UNABLE_TO_READ_FAT_TABLE_SECTOR}
      ensures directory.adapter.device.reliable ==> r == SUCCESS
      ensures r == SUCCESS ==> Valid() && location != BEGIN
      ensures r == SUCCESS && location == MID ==> old(Upcoming()) <= Upcoming() < |directory.Slots()|
      ensures r == SUCCESS && found ==>
                && location == MID && Upcoming() == old(Upcoming())
                && Scan(directory.Slots(), old(Upcoming()), old(lfnEntries))
                   == [Item(directory.Slots()[Upcoming()], lfnEntries)] + Scan(directory.Slots(), Upcoming() + 1, [])
      ensures r == SUCCESS && !found ==>
                && Scan(directory.Slots(), old(Upcoming()), old(lfnEntries))
                   == (if location == END then [] else Scan(directory.Slots(), Upcoming(), lfnEntries))
                && (location == MID ==> old(Upcoming()) < Upcoming())
    {
      hide *;
      found := false;
      ghost var slots, at, held := directory.Slots(), Upcoming(), lfnEntries;
      var s := AsClusterEntry();
      if s.Failure? {
        return s.code, found;
      }
      if IsStandard(s.value) {
        ScanStandard(slots, at, held);
        return SUCCESS, true;
      } else if IsLong(s.value) {
        AddLfnEntry(s.value);
      } else {
        lfnEntries := [];
      }
      ScanOther(slots, at, held);
      if IsUnusedAndEnd(s.value) {
        Finish();
        return SUCCESS, false;
      }
      r := AdvanceCurrentEntry();
      ScanAtEnd(slots, lfnEntries);
    }

    method Finish()
      requires Valid()
      modifies this`location
      ensures Valid() && location == END
    {
      location := END;
    }

    /** The entry iterator's step: it reports the listing of the directory item by item. */
    method NextEntry() returns (r: ResultCode)
      requires directory.Valid() && Valid()
      modifies this`location, this`buffer, this`bufferIsEmpty, this`current, this`place, this`lfnEntries
      ensures r in {SUCCESS, DEVICE_READ_ERROR, UNABLE_TO_READ_FAT_TABLE_SECTOR}
      ensures directory.adapter.device.reliable ==> r == SUCCESS
      ensures r == SUCCESS ==> Valid()
      ensures r == SUCCESS && old(Rest()) == [] ==> location == END
      ensures r == SUCCESS && old(Rest()) != [] ==>
                && location == MID && Upcoming() < |directory.Slots()|
                && old(Rest()) == [Item(directory.Slots()[Upcoming()], lfnEntries)] + Rest()
    {
      hide Scan, Valid, DirectoryOn, SlotsOf, Overlaid;
      ghost var expected := Rest();
      ScanAtEnd(directory.Slots(), []);
      r := NextSlot();
      if r != SUCCESS || location == END {
        return;
      }
      lfnEntries := [];
      r := FindEntry(expected);
    }

    method FindEntry(ghost expected: seq<Item>) returns (r: ResultCode)
      requires directory.Valid() && Valid() && location == MID && Upcoming() < |directory.Slots()|
      requires expected == Scan(directory.Slots(), Upcoming(), lfnEntries)
      modifies this`location, this`buffer, this`bufferIsEmpty, this`current, this`place, this`lfnEntries
      ensures r in {SUCCESS, DEVICE_READ_ERROR, UNABLE_TO_READ_FAT_TABLE_SECTOR}
      ensures directory.adapter.device.reliable ==> r == SUCCESS
      ensures r == SUCCESS ==> Valid()
      ensures r == SUCCESS && expected == [] ==> location == END
      ensures r == SUCCESS && expected != [] ==>
                && location == MID && Upcoming() < |directory.Slots()|
                && expected == [Item(directory.Slots()[Upcoming()], lfnEntries)]
                               + Scan(directory.Slots(), Upcoming() + 1, [])
    {
      hide *;
      while location != END
        invariant Valid() && location != BEGIN
        invariant location == MID ==>
                    Upcoming() < |directory.Slots()| && expected == Scan(directory.Slots(), Upcoming(), lfnEntries)
        invariant location == END ==> expected == []
        decreases if location == END then 0 else 1, |directory.Slots()| - Upcoming()
      {
        var found;
        r, found := LookAtSlot();
        if r != SUCCESS || found {
          return;
        }
      }
      return SUCCESS;
    }
  }
}
