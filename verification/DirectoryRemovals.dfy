/** Deleting files and directories: the entry and its clusters. */
module DirectoryRemovals {
  import opened Memory
  import opened FatLayout
  import opened Chains
  import opened FatAdapter
  import opened Volumes
  import opened FatFile
  import opened DirectorySlots
  import opened ClusterSlots
  import opened Directories
  import opened NameConflicts
  import opened NameSearch
  import opened ShortNames
  import opened DirectoryOperations

  /** `content` is the chain that starts at `first`, apart from the directory's own, or nothing when `first`
      is no cluster. */
  ghost predicate IsContent(l: Layout, fat: seq<nat>, chain: seq<nat>, first: nat, content: seq<nat>)
  {
    if l.OutOfRange(first) then content == []
    else IsChain(fat, content) && content[0] == first && Disjoint(content, chain)
  }

  /** Setting the first clusters of the content free, beside the directory's chain. */
  lemma ContentSteps(l: Layout, s0: seq<byte>, chain: seq<nat>, first: nat, content: seq<nat>, start: nat, done: nat)
    requires DirectoryOn(l, s0, chain, first) && IsContent(l, FatOf(l, s0), chain, start, content)
    requires done <= |content|
    ensures Leads(FatOf(l, s0), Owned(content) + Owned(chain), FreeSteps(content, done),
                  Released(FatOf(l, s0), content[..done]), Remaining(content, done) + Owned(chain))
    ensures !IsOpen(FreeSteps(content, done))
  {
    var fat := FatOf(l, s0);
    if content == [] {
      NothingReleased(fat, content);
      NoSteps(fat, Owned(content) + Owned(chain));
      assert Owned(content) + Owned(chain) == Remaining(content, done) + Owned(chain);
    } else {
      ReleasedBySteps(fat, content, done);
      assert WellFormed(fat, Owned(content) + Owned(chain)) by {
        assert forall c :: c in chain ==> c !in content;
      }
      assert content[0] in content && content != chain;
      LeadsBeside(fat, {content}, FreeSteps(content, done), Released(fat, content[..done]), Remaining(content, done),
                  Owned(chain));
    }
  }

  /** What a part of a run leaves behind. */
  lemma PartialRemovalLeavesOver(slots: seq<Slot>, from: nat, i: nat)
    requires i < |slots| && RunStart(slots, i) < from <= i
    ensures !RunsAreWhole(Removal(slots, from, i))
  {
    var after := Removal(slots, from, i);
    assert after[from - 1] == slots[from - 1] && IsLong(slots[from - 1]);
    MarksAreUnused(slots[from]);
    assert !InUse(after[from]);
    assert !ContinuesAt(after, from - 1 + 1);
  }

  /** A removal from slot `from` on leaves runs whole exactly if it takes the whole run. */
  lemma WholeExactlyIf(slots: seq<Slot>, from: nat, i: nat)
    requires i < |slots| && RunStart(slots, i) <= from <= i && RunsAreWhole(slots)
    ensures RunsAreWhole(Removal(slots, from, i)) <==> from == RunStart(slots, i)
  {
    if from == RunStart(slots, i) {
      RemovingKeepsRunsWhole(slots, i);
    } else {
      PartialRemovalLeavesOver(slots, from, i);
    }
  }

  /** Releasing clusters outside a directory leaves it. */
  lemma ReleasedElsewhere(l: Layout, s0: seq<byte>, s1: seq<byte>, chain: seq<nat>, first: nat, released: seq<nat>)
    requires DirectoryOn(l, s0, chain, first) && l.FitsOn(s1) && FatOf(l, s1) == Released(FatOf(l, s0), released)
    requires Disjoint(released, chain)
    requires forall d :: l.InRange(d) ==> ClusterOf(l, s1, d) == ClusterOf(l, s0, d)
    ensures DirectoryOn(l, s1, chain, first) && SlotsOf(l, s1, chain, first) == SlotsOf(l, s0, chain, first)
  {
    ChainFramed(FatOf(l, s0), FatOf(l, s1), chain);
    assert SlotBlocks(l, s1, chain, first) == SlotBlocks(l, s0, chain, first);
  }

  /** Clusters in use outside the directory keep their data. */
  ghost predicate DataElsewhereKept(l: Layout, s0: seq<byte>, s1: seq<byte>, chain: seq<nat>)
  {
    && l.Valid() && l.FitsOn(s0) && l.FitsOn(s1)
    && forall c: nat :: l.InRange(c) && c !in chain && FatOf(l, s0)[c] != EntryFree ==>
         ClusterOf(l, s1, c) == ClusterOf(l, s0, c)
  }

  /** The walk that sets the content free, or finds no cluster to set free. */
  method ReleaseContent(directory: DirectoryCluster, first: nat, ghost content: seq<nat>) returns (ghost done: nat)
    requires directory.Valid()
    requires IsContent(directory.adapter.layout, directory.adapter.Fat(), directory.chain, first, content)
    modifies directory.adapter.device
    ensures directory.adapter.device.reliable ==> done == |content|
    ensures directory.adapter.Valid() && directory.Valid() && directory.Slots() == old(directory.Slots())
    ensures done <= |content| && directory.adapter.Fat() == Released(old(directory.adapter.Fat()), content[..done])
    ensures directory.adapter.DataUnchanged()
  {
    hide SlotsOf, IsChain;
    ghost var s0 := directory.adapter.device.storage;
    var ignored;
    ignored, done := directory.adapter.ReleaseChain(first, content);
    if directory.adapter.layout.OutOfRange(first) {
      done := 0;
      assert Released(FatOf(directory.adapter.layout, s0), content[..0]) == FatOf(directory.adapter.layout, s0);
    } else {
      ReleasedElsewhere(directory.adapter.layout, s0, directory.adapter.device.storage, directory.chain,
                        directory.firstCluster, content[..done]);
    }
  }

  lemma KeptElsewhere(l: Layout, s0: seq<byte>, s1: seq<byte>, s2: seq<byte>, chain: seq<nat>, first: nat)
    requires Confined(l, s0, chain, first, s1, chain) && l.FitsOn(s2) && first in chain
    requires forall c :: l.InRange(c) ==> ClusterOf(l, s2, c) == ClusterOf(l, s1, c)
    ensures DataElsewhereKept(l, s0, s2, chain)
  {
  }

  /** Marks an entry and its run as unused and releases its clusters.  What becomes of either is not looked
      at.  The directory object does not know the directory's first cluster, so the walk back stays in the
      cluster of the entry: the run goes as a whole exactly if it lies there. */
  method TakeAway(directory: DirectoryCluster, address: EntryAddress, existing: Slot, ghost i: nat,
                  ghost content: seq<nat>)
    returns (ghost oldName: seq<Slot>, ghost removed: bool, ghost done: nat)
    requires directory.Valid() && EndsCleanly(directory.Slots())
    requires directory.IsAt(address, i) && i < |directory.Slots()|
    requires directory.Slots()[i] == existing && IsStandard(existing)
    requires IsContent(directory.adapter.layout, directory.adapter.Fat(), directory.chain,
                       FirstClusterFrom(existing, directory.adapter.layout.rootCluster), content)
    modifies directory.adapter.device
    ensures directory.adapter.device.reliable ==> removed && done == |content|
    ensures directory.adapter.Valid() && directory.Valid() && EndsCleanly(directory.Slots())
    ensures if removed then
              AddsOne(Listing(directory.Slots()), old(Listing(directory.Slots())), Item(existing, oldName))
            else directory.Slots() == old(directory.Slots())
    ensures done <= |content| && directory.adapter.Fat() == Released(old(directory.adapter.Fat()), content[..done])
    ensures DataElsewhereKept(directory.adapter.layout, old(directory.adapter.device.storage),
                              directory.adapter.device.storage, directory.chain)
    ensures directory.adapter.device.reliable && old(RunsAreWhole(directory.Slots())) ==>
              (RunsAreWhole(directory.Slots()) <==> i <= RunStart(old(directory.Slots()), i) + address.index)
  {
    hide SlotsOf, Confined, DataElsewhereKept, Listing, EndsCleanly, RunsAreWhole, AddsOne, RunStart, Removal,
         FirstClusterFrom, IsContent, IsStandard, WalkFallsOff;
    ghost var l, s0, slots := directory.adapter.layout, directory.adapter.device.storage, directory.Slots();
    oldName := [];
    var ignored;
    ghost var from;
    ignored, from, removed := directory.RemoveEntry(0, address, i);
    ghost var s1 := directory.adapter.device.storage;
    if removed {
      oldName := RemovedListing(slots, from, i);
      if RunsAreWhole(slots) {
        WholeExactlyIf(slots, from, i);
      }
    }
    done := ReleaseContent(directory, FirstClusterFrom(existing, directory.adapter.layout.rootCluster), content);
    KeptElsewhere(l, s0, s1, directory.adapter.device.storage, directory.chain, directory.firstCluster);
  }

  /** `DeleteFile` takes any entry that is no part of a long name, `RemoveDirectory` only those of directories. */
  predicate IsDeletable(s: Slot, t: EntryType)
    ensures IsDeletable(s, t) <==>
              s[0] !in {0x00, 0xE5} && (if t == DIRECTORY then 16 <= s[11] % 32 else s[11] != 0x0F)
  {
    if t == DIRECTORY then IsDirectoryEntry(s) else IsStandard(s)
  }

  lemma DirectoryEntryIsStandard(s: Slot, t: EntryType)
    requires IsDeletable(s, t)
    ensures IsStandard(s)
  {
  }

  /** `DeleteFile` and `RemoveDirectory` from the point where they have found the entry: it is read again,
      and taken away with its clusters if it is still one. */
  method DeleteEntry(directory: DirectoryCluster, address: EntryAddress, t: EntryType, ghost i: nat,
                     ghost content: seq<nat>)
    returns (r: ResultCode, ghost oldName: seq<Slot>, ghost removed: bool, ghost done: nat)
    requires directory.Valid() && EndsCleanly(directory.Slots())
    requires directory.IsAt(address, i) && i < |directory.Slots()| && t in {FILE, DIRECTORY}
    requires IsDeletable(directory.Slots()[i], t) ==>
               IsContent(directory.adapter.layout, directory.adapter.Fat(), directory.chain,
                         FirstClusterFrom(directory.Slots()[i], directory.adapter.layout.rootCluster), content)
    modifies directory.adapter.device
    ensures r in {SUCCESS, DEVICE_READ_ERROR, if t == DIRECTORY then DIRECTORY_NOT_FOUND else FILE_NOT_FOUND}
    ensures directory.adapter.device.reliable ==>
              (r == SUCCESS <==> IsDeletable(old(directory.Slots()[i]), t)) && r != DEVICE_READ_ERROR
    ensures directory.adapter.Valid() && directory.Valid() && EndsCleanly(directory.Slots())
    ensures r != SUCCESS ==> directory.adapter.device.storage == old(directory.adapter.device.storage)
    ensures r == SUCCESS ==>
              && IsDeletable(old(directory.Slots()[i]), t) && done <= |content|
              && (directory.adapter.device.reliable ==> removed && done == |content|)
              && (if removed then
                    AddsOne(Listing(directory.Slots()), old(Listing(directory.Slots())),
                            Item(old(directory.Slots()[i]), oldName))
                  else directory.Slots() == old(directory.Slots()))
              && directory.adapter.Fat() == Released(old(directory.adapter.Fat()), content[..done])
              && Leads(old(directory.adapter.Fat()), Owned(content) + Owned(directory.chain),
                       FreeSteps(content, done), directory.adapter.Fat(),
                       Remaining(content, done) + Owned(directory.chain))
              && !IsOpen(FreeSteps(content, done))
              && DataElsewhereKept(directory.adapter.layout, old(directory.adapter.device.storage),
                                   directory.adapter.device.storage, directory.chain)
              && (directory.adapter.device.reliable && old(RunsAreWhole(directory.Slots())) ==>
                    (RunsAreWhole(directory.Slots()) <==> i <= RunStart(old(directory.Slots()), i) + address.index))
  {
    hide SlotsOf, DataElsewhereKept, Listing, EndsCleanly, RunsAreWhole, AddsOne, RunStart, IsContent, IsStandard,
         FirstClusterFrom, DirectoryOn, IsDeletable, Leads, IsOpen, FreeSteps, Remaining;
    oldName, removed, done := [], false, 0;
    var entry := directory.GetClusterEntry(address, i);
    if entry.Failure? {
      r := entry.code;
      return;
    }
    if !IsDeletable(entry.value, t) {
      r := if t == DIRECTORY then DIRECTORY_NOT_FOUND else FILE_NOT_FOUND;
      return;
    }
    DirectoryEntryIsStandard(entry.value, t);
    ghost var s0 := directory.adapter.device.storage;
    oldName, removed, done := TakeAway(directory, address, entry.value, i, content);
    ContentSteps(directory.adapter.layout, s0, directory.chain, directory.firstCluster, content,
                 FirstClusterFrom(entry.value, directory.adapter.layout.rootCluster), done);
    r := SUCCESS;
  }

  lemma ItemsAround(before: seq<Item>, after: seq<Item>, item: Item, p: nat, k: nat)
    requires p <= |before| && after == before[..p] + [item] + before[p..] && k < |after|
    ensures after[k] == if k < p then before[k] else if k == p then item else before[k - 1]
  {
  }

  /** Deleting undoes creating: what is left when the entry is gone is what was there before it came, in the
      same order, as long as its short name was in use nowhere. */
  lemma DeletingUndoesCreating(before: seq<Item>, created: seq<Item>, after: seq<Item>, item: Item, oldName: seq<Slot>)
    requires AddsOne(before, created, item) && AddsOne(after, created, Item(item.entry, oldName))
    requires IsNamed(item.entry) && NameUnused(before, Trimmed(item.entry[..8]), Trimmed(item.entry[8..11]))
    ensures after == before && oldName == item.longName
  {
    hide IsNamed, Trimmed;
    var p :| 0 <= p <= |before| && created == before[..p] + [item] + before[p..];
    var q :| 0 <= q <= |after| && created == after[..q] + [Item(item.entry, oldName)] + after[q..];
    ItemsAround(before, created, item, p, q);
    ItemsAround(after, created, Item(item.entry, oldName), q, q);
    assert p == q;
    assert created[..p] == before[..p] == after[..q];
    assert created[p + 1..] == before[p..] == after[q..];
    assert before == before[..p] + before[p..] && after == after[..q] + after[q..];
  }
}
