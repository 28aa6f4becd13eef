/** Slots laid over a chain of clusters. */
module ClusterSlots {
  import opened Memory
  import opened LayoutArithmetic
  import opened BlockDevices
  import opened FatLayout
  import opened Chains
  import opened Volumes
  import opened BlockSequences
  import opened EntryFields
  import opened DirectorySlots

  function SlotAt(block: seq<byte>, index: nat): Slot
    requires HasEntry(block, index)
  {
    block[EntrySize * index..EntrySize * index + EntrySize]
  }

  /** The first `n` slots of a block. */
  ghost function SlotsIn(block: seq<byte>, n: nat): (slots: seq<Slot>)
    requires EntrySize * n <= |block|
    ensures |slots| == n && forall i :: 0 <= i < n ==> slots[i] == SlotAt(block, i)
  {
    seq(n, i requires 0 <= i < n => SlotAt(block, i))
  }

  /** The block with one slot replaced. */
  function WithSlot(block: seq<byte>, index: nat, s: Slot): (r: seq<byte>)
    requires HasEntry(block, index)
    ensures |r| == |block|
  {
    Splice(block, EntrySize * index, s)
  }

  lemma SlotReplaced(block: seq<byte>, n: nat, index: nat, s: Slot)
    requires EntrySize * n <= |block| && index < n
    ensures SlotsIn(WithSlot(block, index, s), n) == SlotsIn(block, n)[index := s]
  {
    forall i | 0 <= i < n ensures SlotsIn(WithSlot(block, index, s), n)[i] == SlotsIn(block, n)[index := s][i] {
      SpliceSlice(block, EntrySize * index, s, EntrySize * i, EntrySize * i + EntrySize);
    }
  }

  function EntriesPerCluster(l: Layout): nat
  {
    l.bytesPerCluster / EntrySize
  }

  /** A cluster holds whole entries. */
  lemma WholeEntries(l: Layout)
    requires l.Valid()
    ensures l.bytesPerCluster == EntrySize * EntriesPerCluster(l) && 0 < EntriesPerCluster(l)
  {
    ProductIs(l.sectorsPerCluster, l.blockSize);
    var q := l.blockSize / EntrySize;
    assert l.blockSize == EntrySize * q;
    assert l.sectorsPerCluster * (EntrySize * q) == EntrySize * (l.sectorsPerCluster * q);
    assert 1 <= l.sectorsPerCluster * q;
  }

  /** A directory's chain. */
  ghost predicate DirectoryOn(l: Layout, storage: seq<byte>, chain: seq<nat>, first: nat)
  {
    && l.Valid() && l.FitsOn(storage)
    && IsChain(FatOf(l, storage), chain) && chain[0] == first
    && l.bytesPerCluster == EntrySize * EntriesPerCluster(l)
  }

  ghost function SlotBlocks(l: Layout, storage: seq<byte>, chain: seq<nat>, first: nat): (blocks: seq<seq<Slot>>)
    requires DirectoryOn(l, storage, chain, first)
    ensures |blocks| == |chain| && Uniform(blocks, EntriesPerCluster(l))
    ensures forall i :: 0 <= i < |chain| ==>
              blocks[i] == SlotsIn(ClusterOf(l, storage, chain[i]), EntriesPerCluster(l))
  {
    seq(|chain|, i requires 0 <= i < |chain| => SlotsIn(ClusterOf(l, storage, chain[i]), EntriesPerCluster(l)))
  }

  /** The slots of the directory, with what `buffer` holds in the place of its cluster `place`. */
  ghost function Overlaid(l: Layout, storage: seq<byte>, chain: seq<nat>, first: nat,
                          place: nat, buffer: seq<byte>): (slots: seq<Slot>)
    requires DirectoryOn(l, storage, chain, first) && place < |chain| && |buffer| == l.bytesPerCluster
    ensures |slots| == Product(|chain|, EntriesPerCluster(l))
  {
    var blocks := SlotBlocks(l, storage, chain, first)[place := SlotsIn(buffer, EntriesPerCluster(l))];
    FlattenLength(blocks, EntriesPerCluster(l));
    Flatten(blocks)
  }

  ghost function SlotsOf(l: Layout, storage: seq<byte>, chain: seq<nat>, first: nat): (slots: seq<Slot>)
    requires DirectoryOn(l, storage, chain, first)
    ensures |slots| == Product(|chain|, EntriesPerCluster(l))
  {
    FlattenLength(SlotBlocks(l, storage, chain, first), EntriesPerCluster(l));
    Flatten(SlotBlocks(l, storage, chain, first))
  }

  lemma OverlaidSelf(l: Layout, storage: seq<byte>, chain: seq<nat>, first: nat, place: nat, buffer: seq<byte>)
    requires DirectoryOn(l, storage, chain, first) && place < |chain|
    requires buffer == ClusterOf(l, storage, chain[place])
    ensures Overlaid(l, storage, chain, first, place, buffer) == SlotsOf(l, storage, chain, first)
  {
    var blocks := SlotBlocks(l, storage, chain, first);
    assert blocks[place := SlotsIn(buffer, EntriesPerCluster(l))] == blocks;
  }

  /** A slot of the buffer is the slot of the directory that lies there. */
  lemma OverlaidAt(l: Layout, storage: seq<byte>, chain: seq<nat>, first: nat,
                   place: nat, buffer: seq<byte>, index: nat)
    requires DirectoryOn(l, storage, chain, first) && place < |chain| && |buffer| == l.bytesPerCluster
    requires index < EntriesPerCluster(l)
    ensures HasEntry(buffer, index)
    ensures var at := Product(place, EntriesPerCluster(l)) + index;
            && at < Product(|chain|, EntriesPerCluster(l))
            && Overlaid(l, storage, chain, first, place, buffer)[at] == SlotAt(buffer, index)
  {
    hide IsChain, FatOf, ClusterOf;
    var n := EntriesPerCluster(l);
    var blocks := SlotBlocks(l, storage, chain, first)[place := SlotsIn(buffer, n)];
    FlattenedAt(blocks, n, place, index);
    assert blocks[place] == SlotsIn(buffer, n) && HasEntry(buffer, index);
  }

  lemma OverlaidPatched(l: Layout, storage: seq<byte>, chain: seq<nat>, first: nat,
                        place: nat, buffer: seq<byte>, index: nat, s: Slot)
    requires DirectoryOn(l, storage, chain, first) && place < |chain| && |buffer| == l.bytesPerCluster
    requires index < EntriesPerCluster(l)
    ensures var at := Product(place, EntriesPerCluster(l)) + index;
            && at < Product(|chain|, EntriesPerCluster(l))
            && Overlaid(l, storage, chain, first, place, WithSlot(buffer, index, s))
               == Overlaid(l, storage, chain, first, place, buffer)[at := s]
  {
    var n := EntriesPerCluster(l);
    var blocks := SlotBlocks(l, storage, chain, first);
    SlotReplaced(buffer, n, index, s);
    FlattenedPatched(blocks, n, place, SlotsIn(buffer, n), index, s);
  }

  lemma FlattenedAt<T>(blocks: seq<seq<T>>, n: nat, place: nat, index: nat)
    requires Uniform(blocks, n) && place < |blocks| && index < n
    ensures Product(place, n) + index < Product(|blocks|, n) == |Flatten(blocks)|
    ensures Flatten(blocks)[Product(place, n) + index] == blocks[place][index]
  {
    FlattenLength(blocks, n);
    FlattenAt(blocks, n, place);
    var all, at := Flatten(blocks), Product(place, n);
    assert all[at + index] == all[at..at + n][index];
  }

  lemma UniformStays<T>(blocks: seq<seq<T>>, n: nat, place: nat, held: seq<T>)
    requires Uniform(blocks, n) && place < |blocks| && |held| == n
    ensures Uniform(blocks[place := held], n)
  {
  }

  lemma FlattenedPatched<T>(blocks: seq<seq<T>>, n: nat, place: nat, held: seq<T>, index: nat, s: T)
    requires Uniform(blocks, n) && place < |blocks| && |held| == n && index < n
    ensures Product(place, n) + index < Product(|blocks|, n) == |Flatten(blocks[place := held])|
    ensures Flatten(blocks[place := held[index := s]])
            == Flatten(blocks[place := held])[Product(place, n) + index := s]
  {
    hide *;
    var before := blocks[place := held];
    UniformStays(blocks, n, place, held);
    FlattenLength(before, n);
    FlattenAt(before, n, place);
    FlattenUpdate(before, n, place, held[index := s]);
    assert before[place := held[index := s]] == blocks[place := held[index := s]];
    SplicedOne(Flatten(before), Product(place, n), n, index, s);
  }

  lemma SplicedOne<T>(all: seq<T>, at: nat, n: nat, index: nat, s: T)
    requires at + n <= |all| && index < n
    ensures Splice(all, at, all[at..at + n][index := s]) == all[at + index := s]
  {
  }

  /** Writing the buffer back makes the overlay real. */
  lemma OverlaidWritten(l: Layout, s0: seq<byte>, s1: seq<byte>, chain: seq<nat>, first: nat,
                        place: nat, buffer: seq<byte>)
    requires DirectoryOn(l, s0, chain, first) && place < |chain| && |buffer| == l.bytesPerCluster
    requires l.FitsOn(s1) && FatOf(l, s1) == FatOf(l, s0) && ClusterOf(l, s1, chain[place]) == buffer
    requires forall d :: l.InRange(d) && d != chain[place] ==> ClusterOf(l, s1, d) == ClusterOf(l, s0, d)
    ensures DirectoryOn(l, s1, chain, first)
    ensures SlotsOf(l, s1, chain, first) == Overlaid(l, s0, chain, first, place, buffer)
  {
    var n := EntriesPerCluster(l);
    var blocks := SlotBlocks(l, s0, chain, first);
    forall i | 0 <= i < |chain|
      ensures SlotBlocks(l, s1, chain, first)[i] == blocks[place := SlotsIn(buffer, n)][i]
    {
      assert i != place ==> chain[i] != chain[place];
    }
    assert SlotBlocks(l, s1, chain, first) == blocks[place := SlotsIn(buffer, n)];
  }

  // ---------------------------------------------------------------- growing

  ghost predicate AllEnds(slots: seq<Slot>)
  {
    forall i :: 0 <= i < |slots| ==> IsUnusedAndEnd(slots[i])
  }

  /** A zeroed cluster put behind the last one adds end marks and nothing else. */
  lemma DirectoryGrown(l: Layout, s0: seq<byte>, s1: seq<byte>, chain: seq<nat>, first: nat, c: nat)
    returns (added: seq<Slot>)
    requires DirectoryOn(l, s0, chain, first) && l.FitsOn(s1) && IsFree(FatOf(l, s0), c)
    requires Last(chain) < l.maximumCluster && FatOf(l, s1) == Extended(FatOf(l, s0), Last(chain), c)
    requires ClusterOf(l, s1, c) == seq(l.bytesPerCluster, i => 0)
    requires forall d :: l.InRange(d) && d != c ==> ClusterOf(l, s1, d) == ClusterOf(l, s0, d)
    ensures DirectoryOn(l, s1, chain + [c], first)
    ensures SlotsOf(l, s1, chain + [c], first) == SlotsOf(l, s0, chain, first) + added
    ensures |added| == EntriesPerCluster(l) && AllEnds(added)
  {
    var n := EntriesPerCluster(l);
    ExtendChain(FatOf(l, s0), chain, c);
    ChainIsNotFree(FatOf(l, s0), chain, c);
    added := SlotsIn(ClusterOf(l, s1, c), n);
    var before, after := SlotBlocks(l, s0, chain, first), SlotBlocks(l, s1, chain + [c], first);
    forall i | 0 <= i < |chain| ensures after[i] == before[i] {
      assert (chain + [c])[i] == chain[i] && chain[i] in chain;
    }
    assert after == before + [added];
    FlattenSnoc(before, added);
  }

  /** End marks put behind the slots leave the listing and the end-mark invariant. */
  lemma EndsAppended(slots: seq<Slot>, added: seq<Slot>)
    requires AllEnds(added)
    ensures Listing(slots + added) == Listing(slots)
    ensures EndsCleanly(slots) ==> EndsCleanly(slots + added)
  {
    ScanIgnoresEnds(slots, added, 0, []);
  }

  lemma {:induction false} ScanIgnoresEnds(slots: seq<Slot>, added: seq<Slot>, i: nat, pending: seq<Slot>)
    requires AllEnds(added) && i <= |slots|
    ensures Scan(slots + added, i, pending) == Scan(slots, i, pending)
    decreases |slots| - i
  {
    if i < |slots| {
      assert (slots + added)[i] == slots[i];
      ScanIgnoresEnds(slots, added, i + 1, After(pending, slots[i]));
    } else if added != [] {
      assert (slots + added)[i] == added[0];
    }
  }
}
