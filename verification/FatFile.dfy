/** `FAT32Directory`'s two updates of an entry on the disk, and `FAT32File`. */
module FatFile {
  import opened Memory
  import opened LayoutArithmetic
  import opened BlockDevices
  import opened FatLayout
  import opened Chains
  import opened FatAdapter
  import opened Volumes
  import opened BlockSequences
  import opened EntryFields

  method SetDirectoryEntryFirstCluster(adapter: BlockIoAdapter, cluster: nat, index: nat, first: nat)
    returns (r: ResultCode)
    requires adapter.Valid() && adapter.layout.InRange(cluster)
    requires HasEntry(adapter.Cluster(cluster), index) && first < 0x1_0000_0000
    modifies adapter.device
    ensures adapter.device.reliable ==> r == SUCCESS
    ensures adapter.Valid() && adapter.Fat() == old(adapter.Fat())
    ensures r in {SUCCESS, DEVICE_READ_ERROR, DEVICE_WRITE_ERROR}
    ensures r != SUCCESS ==> adapter.device.storage == old(adapter.device.storage)
    ensures r == SUCCESS ==>
              adapter.Cluster(cluster) == WithFirstCluster(old(adapter.Cluster(cluster)), index, first)
    ensures forall d :: adapter.layout.InRange(d) && d != cluster ==> adapter.Cluster(d) == old(adapter.Cluster(d))
  {
    var data := adapter.ReadCluster(cluster);
    if data.None? {
      return DEVICE_READ_ERROR;
    }
    var ok := adapter.WriteCluster(cluster, WithFirstCluster(data.value, index, first));
    return if ok then SUCCESS else DEVICE_WRITE_ERROR;
  }

  method UpdateDirectoryEntrySize(adapter: BlockIoAdapter, cluster: nat, index: nat, size: nat)
    returns (r: ResultCode)
    requires adapter.Valid() && adapter.layout.InRange(cluster)
    requires HasEntry(adapter.Cluster(cluster), index) && size < 0x1_0000_0000
    modifies adapter.device
    ensures adapter.device.reliable ==> r == SUCCESS
    ensures adapter.Valid() && adapter.Fat() == old(adapter.Fat())
    ensures r in {SUCCESS, DEVICE_READ_ERROR, DEVICE_WRITE_ERROR}
    ensures r != SUCCESS ==> adapter.device.storage == old(adapter.device.storage)
    ensures r == SUCCESS ==>
              adapter.Cluster(cluster) == WithSize(old(adapter.Cluster(cluster)), index, size)
    ensures forall d :: adapter.layout.InRange(d) && d != cluster ==> adapter.Cluster(d) == old(adapter.Cluster(d))
  {
    var data := adapter.ReadCluster(cluster);
    if data.None? {
      return DEVICE_READ_ERROR;
    }
    var ok := adapter.WriteCluster(cluster, WithSize(data.value, index, size));
    return if ok then SUCCESS else DEVICE_WRITE_ERROR;
  }

  /** Subtraction of 32-bit numbers. */
  function WrappedDifference(a: nat, b: nat): (d: nat)
    requires a < 0x1_0000_0000 && b < 0x1_0000_0000
    ensures d == if b <= a then a - b else 0x1_0000_0000 + a - b
  {
    (a - b) % 0x1_0000_0000
  }

  /** The data of the clusters of a chain. */
  ghost function BlocksOf(l: Layout, storage: seq<byte>, chain: seq<nat>): (cs: seq<seq<byte>>)
    requires l.Valid() && l.FitsOn(storage) && forall i :: 0 <= i < |chain| ==> l.InRange(chain[i])
    ensures |cs| == |chain| && Uniform(cs, l.bytesPerCluster)
    ensures forall i :: 0 <= i < |cs| ==> cs[i] == ClusterOf(l, storage, chain[i])
  {
    seq(|chain|, i requires 0 <= i < |chain| => ClusterOf(l, storage, chain[i]))
  }

  lemma SlicesJoin(b: seq<byte>, lo: nat, mid: nat, hi: nat)
    requires lo <= mid <= hi <= |b|
    ensures b[lo..mid] + b[mid..hi] == b[lo..hi]
  {
  }

  lemma SliceOfFront(b: seq<byte>, size: nat, lo: nat, hi: nat)
    requires lo <= hi <= size <= |b|
    ensures b[..size][lo..hi] == b[lo..hi]
  {
  }

  /** The bytes of the clusters of a chain. */
  ghost function BytesOf(l: Layout, storage: seq<byte>, chain: seq<nat>): (b: seq<byte>)
    requires l.Valid() && l.FitsOn(storage) && forall i :: 0 <= i < |chain| ==> l.InRange(chain[i])
    ensures |b| == Product(|chain|, l.bytesPerCluster)
  {
    FlattenLength(BlocksOf(l, storage, chain), l.bytesPerCluster);
    Flatten(BlocksOf(l, storage, chain))
  }

  /** The bytes of the first clusters are the first bytes. */
  lemma BytesOfFront(l: Layout, storage: seq<byte>, chain: seq<nat>, k: nat)
    requires l.Valid() && l.FitsOn(storage) && forall i :: 0 <= i < |chain| ==> l.InRange(chain[i])
    requires k <= |chain|
    ensures Product(k, l.bytesPerCluster) <= |BytesOf(l, storage, chain)|
    ensures BytesOf(l, storage, chain[..k]) == BytesOf(l, storage, chain)[..Product(k, l.bytesPerCluster)]
  {
    hide Product, Flatten, ClusterOf;
    FlattenPrefix(BlocksOf(l, storage, chain), l.bytesPerCluster, k);
    assert BlocksOf(l, storage, chain)[..k] == BlocksOf(l, storage, chain[..k]);
  }

  /** A stretch of a cluster is a stretch of the file. */
  lemma StretchOfCluster(l: Layout, storage: seq<byte>, chain: seq<nat>, i: nat, lo: nat, hi: nat)
    requires l.Valid() && l.FitsOn(storage) && forall i :: 0 <= i < |chain| ==> l.InRange(chain[i])
    requires i < |chain| && lo <= hi <= l.bytesPerCluster
    ensures Product(i + 1, l.bytesPerCluster) == Product(i, l.bytesPerCluster) + l.bytesPerCluster
    ensures Product(i + 1, l.bytesPerCluster) <= Product(|chain|, l.bytesPerCluster)
    ensures BytesOf(l, storage, chain)[Product(i, l.bytesPerCluster) + lo..Product(i, l.bytesPerCluster) + hi]
            == ClusterOf(l, storage, chain[i])[lo..hi]
  {
    var n := l.bytesPerCluster;
    FlattenAt(BlocksOf(l, storage, chain), n, i);
    SliceOfSlice(BytesOf(l, storage, chain), Product(i, n), n, lo, hi - lo);
  }

  /** One turn of `Write` on the bytes of the file. */
  lemma BytesPatched(l: Layout, s0: seq<byte>, s1: seq<byte>, chain: seq<nat>, i: nat,
                     x: seq<byte>, off: nat, chunk: seq<byte>, at: nat, kept: nat)
    requires l.Valid() && l.FitsOn(s0) && l.FitsOn(s1) && Distinct(chain)
    requires forall j :: 0 <= j < |chain| ==> l.InRange(chain[j])
    requires i < |chain| && |x| == l.bytesPerCluster && off + |chunk| <= l.bytesPerCluster
    requires 0 < off ==> x == ClusterOf(l, s0, chain[i])
    requires ClusterOf(l, s1, chain[i]) == Splice(x, off, chunk)
    requires forall d :: l.InRange(d) && d != chain[i] ==> ClusterOf(l, s1, d) == ClusterOf(l, s0, d)
    requires at == Product(i, l.bytesPerCluster) + off
    requires kept == if 0 < off then at + |chunk| else Product(i + 1, l.bytesPerCluster)
    ensures Written(BytesOf(l, s0, chain), BytesOf(l, s1, chain), at, chunk, kept)
    ensures Product(i, l.bytesPerCluster) + l.bytesPerCluster <= |BytesOf(l, s0, chain)|
    ensures BytesOf(l, s1, chain)
            == Splice(BytesOf(l, s0, chain), Product(i, l.bytesPerCluster), ClusterOf(l, s1, chain[i]))
  {
    hide Written, Product, Flatten, ClusterOf, Splice;
    var cs := BlocksOf(l, s0, chain);
    forall j | 0 <= j < |chain| ensures BlocksOf(l, s1, chain)[j] == cs[i := Splice(x, off, chunk)][j] {
      assert j != i ==> chain[j] != chain[i];
    }
    assert BlocksOf(l, s1, chain) == cs[i := Splice(x, off, chunk)];
    PatchedBlock(cs, l.bytesPerCluster, i, x, off, chunk);
    FlattenUpdate(cs, l.bytesPerCluster, i, Splice(x, off, chunk));
  }

  /** A cluster added to the chain leaves the bytes before it. */
  lemma BytesGrown(l: Layout, s0: seq<byte>, s1: seq<byte>, chain: seq<nat>, c: nat)
    requires l.Valid() && l.FitsOn(s0) && l.FitsOn(s1) && l.InRange(c)
    requires forall j :: 0 <= j < |chain| ==> l.InRange(chain[j])
    requires forall d :: l.InRange(d) ==> ClusterOf(l, s1, d) == ClusterOf(l, s0, d)
    ensures forall j :: 0 <= j < |chain + [c]| ==> l.InRange((chain + [c])[j])
    ensures BytesOf(l, s0, chain) <= BytesOf(l, s1, chain + [c])
    ensures |BytesOf(l, s1, chain + [c])| == |BytesOf(l, s0, chain)| + l.bytesPerCluster
  {
    assert BlocksOf(l, s1, chain + [c]) == BlocksOf(l, s0, chain) + [ClusterOf(l, s1, c)];
    FlattenSnoc(BlocksOf(l, s0, chain), ClusterOf(l, s1, c));
  }

  /** What writing to the file with chain `chain` may do to the rest of the device: clusters that
      join the chain were free, and every other cluster in use keeps its entry and, except for the
      one that holds the file's directory entry, its data. */
  ghost predicate Confined(l: Layout, before: seq<byte>, chain: seq<nat>, entryCluster: nat,
                           after: seq<byte>, longer: seq<nat>)
  {
    && l.Valid() && l.FitsOn(before) && l.FitsOn(after)
    && (forall c :: c in longer ==> c in chain || IsFree(FatOf(l, before), c))
    && (forall c: nat :: l.InRange(c) && c !in chain && FatOf(l, before)[c] != EntryFree ==>
          && FatOf(l, after)[c] == FatOf(l, before)[c]
          && (c != entryCluster ==> ClusterOf(l, after, c) == ClusterOf(l, before, c)))
  }

  lemma ConfinedTransitive(l: Layout, s0: seq<byte>, c0: seq<nat>, entryCluster: nat,
                           s1: seq<byte>, c1: seq<nat>, s2: seq<byte>, c2: seq<nat>)
    requires Confined(l, s0, c0, entryCluster, s1, c1) && Confined(l, s1, c1, entryCluster, s2, c2)
    ensures Confined(l, s0, c0, entryCluster, s2, c2)
  {
  }

  /** A file whose chain shares nothing with the written one, and which is not the directory's, keeps
      its chain and its bytes. */
  lemma OtherFilesKept(l: Layout, before: seq<byte>, chain: seq<nat>, entryCluster: nat,
                       after: seq<byte>, longer: seq<nat>, other: seq<nat>)
    requires Confined(l, before, chain, entryCluster, after, longer)
    requires IsChain(FatOf(l, before), other) && Disjoint(other, chain) && entryCluster !in other
    ensures IsChain(FatOf(l, after), other) && Disjoint(other, longer)
    ensures BlocksOf(l, after, other) == BlocksOf(l, before, other)
  {
    forall c | c in other
      ensures l.InRange(c) && c !in chain && FatOf(l, before)[c] != EntryFree
    {
      var i :| 0 <= i < |other| && other[i] == c;
      LinkAt(FatOf(l, before), other, i);
    }
    forall i | 0 <= i < |other| ensures ClusterOf(l, after, other[i]) == ClusterOf(l, before, other[i]) {
      assert other[i] in other;
    }
    ChainFramed(FatOf(l, before), FatOf(l, after), other);
  }

  /** The file's entry on the disk is in a cluster that is in use and not the file's own, and it
      agrees with what the handle holds. */
  ghost predicate EntryOn(l: Layout, storage: seq<byte>, chain: seq<nat>, first: nat,
                          entryCluster: nat, entryIndex: nat, size: nat)
  {
    && l.Valid() && l.FitsOn(storage) && l.InRange(entryCluster)
    && EntrySize * entryIndex + EntrySize <= l.bytesPerCluster
    && entryCluster !in chain && FatOf(l, storage)[entryCluster] != EntryFree
    && FirstClusterOf(ClusterOf(l, storage, entryCluster), entryIndex) == first
    && SizeOf(ClusterOf(l, storage, entryCluster), entryIndex) == size
  }

  /** A file with at least one cluster. */
  ghost predicate FileOn(l: Layout, storage: seq<byte>, chain: seq<nat>, first: nat,
                         entryCluster: nat, entryIndex: nat, size: nat)
  {
    && EntryOn(l, storage, chain, first, entryCluster, entryIndex, size)
    && IsChain(FatOf(l, storage), chain) && chain[0] == first
    && Product(|chain|, l.bytesPerCluster) < 0x1_0000_0000
  }

  /** Writing a cluster of the file keeps the file in order, and touches nothing else. */
  lemma PatchedFile(l: Layout, s0: seq<byte>, s1: seq<byte>, chain: seq<nat>, first: nat,
                    entryCluster: nat, entryIndex: nat, size: nat, i: nat)
    requires FileOn(l, s0, chain, first, entryCluster, entryIndex, size)
    requires l.FitsOn(s1) && FatOf(l, s1) == FatOf(l, s0) && i < |chain|
    requires forall d :: l.InRange(d) && d != chain[i] ==> ClusterOf(l, s1, d) == ClusterOf(l, s0, d)
    ensures FileOn(l, s1, chain, first, entryCluster, entryIndex, size)
    ensures ClusterOf(l, s1, entryCluster) == ClusterOf(l, s0, entryCluster)
    ensures Confined(l, s0, chain, entryCluster, s1, chain)
  {
    assert chain[i] in chain;
  }

  /** The same for the bytes of clusters of the file. */
  lemma PatchedBytes(l: Layout, s0: seq<byte>, s1: seq<byte>, front: seq<nat>, i: nat,
                     x: seq<byte>, off: nat, chunk: seq<byte>, at: nat, kept: nat)
    requires l.Valid() && l.FitsOn(s0) && l.FitsOn(s1) && Distinct(front)
    requires (forall j :: 0 <= j < |front| ==> l.InRange(front[j])) && i < |front|
    requires |x| == l.bytesPerCluster && off + |chunk| <= l.bytesPerCluster
    requires 0 < off ==> x == ClusterOf(l, s0, front[i])
    requires ClusterOf(l, s1, front[i]) == Splice(x, off, chunk)
    requires forall d :: l.InRange(d) && d != front[i] ==> ClusterOf(l, s1, d) == ClusterOf(l, s0, d)
    requires at == Product(i, l.bytesPerCluster) + off
    requires kept == if 0 < off then at + |chunk| else Product(i + 1, l.bytesPerCluster)
    ensures Written(BytesOf(l, s0, front), BytesOf(l, s1, front), at, chunk, kept)
    ensures TurnDone(BytesOf(l, s0, front), l.bytesPerCluster, Product(i, l.bytesPerCluster), off, chunk, x,
                     ClusterOf(l, s1, front[i]), BytesOf(l, s1, front))
  {
    hide Written, TurnDone, Product, Splice, ClusterOf, BytesOf;
    BytesPatched(l, s0, s1, front, i, x, off, chunk, at, kept);
    WholeCluster(l, s0, front, i);
    TurnTaken(BytesOf(l, s0, front), l.bytesPerCluster, Product(i, l.bytesPerCluster), off, chunk, x,
              ClusterOf(l, s0, front[i]), ClusterOf(l, s1, front[i]), BytesOf(l, s1, front));
  }

  lemma WholeCluster(l: Layout, storage: seq<byte>, chain: seq<nat>, i: nat)
    requires l.Valid() && l.FitsOn(storage) && forall i :: 0 <= i < |chain| ==> l.InRange(chain[i])
    requires i < |chain|
    ensures var at := Product(i, l.bytesPerCluster);
            && at + l.bytesPerCluster <= |BytesOf(l, storage, chain)|
            && BytesOf(l, storage, chain)[at..at + l.bytesPerCluster] == ClusterOf(l, storage, chain[i])
  {
    hide Product, ClusterOf, Flatten;
    FlattenAt(BlocksOf(l, storage, chain), l.bytesPerCluster, i);
  }

  lemma TurnTaken(before: seq<byte>, n: nat, base: nat, off: nat, chunk: seq<byte>, x: seq<byte>, cluster: seq<byte>,
                  block: seq<byte>, after: seq<byte>)
    requires base + n <= |before| && before[base..base + n] == cluster && |x| == n && off + |chunk| <= n
    requires 0 < off ==> x == cluster
    requires block == Splice(x, off, chunk) && after == Splice(before, base, block)
    ensures TurnDone(before, n, base, off, chunk, x, block, after)
  {
    hide Splice;
  }

  /** A turn takes the block buffer for what it is only at the start of a cluster. */
  lemma TurnFromBuffer(before: seq<byte>, n: nat, base: nat, off: nat, chunk: seq<byte>, x: seq<byte>, y: seq<byte>,
                       block: seq<byte>, after: seq<byte>)
    requires TurnDone(before, n, base, off, chunk, x, block, after) && |y| == n && (off == 0 ==> x == y)
    ensures TurnDone(before, n, base, off, chunk, y, block, after)
  {
  }

  /** A free cluster linked behind cluster number `i` of the file and marked makes a file of the clusters up to
      there and the new one. */
  lemma GrownFile(l: Layout, s0: seq<byte>, s1: seq<byte>, chain: seq<nat>, first: nat,
                  entryCluster: nat, entryIndex: nat, size: nat, i: nat, c: nat)
    requires FileOn(l, s0, chain, first, entryCluster, entryIndex, size) && i < |chain|
    requires l.FitsOn(s1) && IsFree(FatOf(l, s0), c) && Product(i + 2, l.bytesPerCluster) < 0x1_0000_0000
    requires chain[i] < l.maximumCluster && FatOf(l, s1) == Extended(FatOf(l, s0), chain[i], c)
    requires forall d :: l.InRange(d) ==> ClusterOf(l, s1, d) == ClusterOf(l, s0, d)
    ensures FileOn(l, s1, chain[..i + 1] + [c], first, entryCluster, entryIndex, size)
    ensures ClusterOf(l, s1, entryCluster) == ClusterOf(l, s0, entryCluster)
    ensures Confined(l, s0, chain, entryCluster, s1, chain[..i + 1] + [c])
  {
    GrownConfined(l, s0, s1, chain, entryCluster, i, c);
    hide Confined;
    RelinkChain(FatOf(l, s0), chain, i, c);
    assert chain[i] in chain;
  }

  lemma GrownConfined(l: Layout, s0: seq<byte>, s1: seq<byte>, chain: seq<nat>, entryCluster: nat, i: nat, c: nat)
    requires l.Valid() && l.FitsOn(s0) && l.FitsOn(s1) && IsFree(FatOf(l, s0), c) && i < |chain|
    requires chain[i] < l.maximumCluster && FatOf(l, s1) == Extended(FatOf(l, s0), chain[i], c)
    requires forall d :: l.InRange(d) ==> ClusterOf(l, s1, d) == ClusterOf(l, s0, d)
    ensures Confined(l, s0, chain, entryCluster, s1, chain[..i + 1] + [c])
  {
    assert chain[i] in chain;
    forall d | d in chain[..i + 1] + [c] ensures d in chain || d == c {
    }
  }

  lemma EntryOfFile(l: Layout, storage: seq<byte>, chain: seq<nat>, first: nat,
                    entryCluster: nat, entryIndex: nat, size: nat)
    requires FileOn(l, storage, chain, first, entryCluster, entryIndex, size)
    ensures EntryOn(l, storage, chain, first, entryCluster, entryIndex, size)
  {
  }

  /** A link that was written and not marked touches nothing but the entry it is in. */
  lemma LinkFailed(l: Layout, s0: seq<byte>, s1: seq<byte>, chain: seq<nat>, entryCluster: nat, i: nat, c: nat)
    requires l.Valid() && l.FitsOn(s0) && l.FitsOn(s1) && i < |chain| && chain[i] < l.maximumCluster
    requires FatOf(l, s1) == FatOf(l, s0)[chain[i] := c]
    requires forall d :: l.InRange(d) ==> ClusterOf(l, s1, d) == ClusterOf(l, s0, d)
    ensures Confined(l, s0, chain, entryCluster, s1, chain[..i + 1])
  {
    assert chain[i] in chain;
    forall d | d in chain[..i + 1] ensures d in chain {
    }
  }

  /** An empty file given its first cluster, in the FAT and then in its entry. */
  lemma StartedFile(l: Layout, s0: seq<byte>, s1: seq<byte>, s2: seq<byte>,
                    entryCluster: nat, entryIndex: nat, c: nat)
    requires EntryOn(l, s0, [], 0, entryCluster, entryIndex, 0) && l.bytesPerCluster < 0x1_0000_0000
    requires l.FitsOn(s1) && IsFree(FatOf(l, s0), c) && FatOf(l, s1) == Allocated(FatOf(l, s0), c)
    requires forall d :: l.InRange(d) ==> ClusterOf(l, s1, d) == ClusterOf(l, s0, d)
    requires l.FitsOn(s2) && FatOf(l, s2) == FatOf(l, s1)
    requires ClusterOf(l, s2, entryCluster) == WithFirstCluster(ClusterOf(l, s1, entryCluster), entryIndex, c)
    requires forall d :: l.InRange(d) && d != entryCluster ==> ClusterOf(l, s2, d) == ClusterOf(l, s1, d)
    ensures FileOn(l, s2, [c], c, entryCluster, entryIndex, 0)
    ensures Confined(l, s0, [], entryCluster, s2, [c])
  {
    FirstClusterIsSet(ClusterOf(l, s1, entryCluster), entryIndex, c);
    assert IsChain(FatOf(l, s2), [c]);
  }

  /** The entry of an empty file that has got no further than a cluster of its own. */
  lemma EntryKept(l: Layout, s0: seq<byte>, s1: seq<byte>, entryCluster: nat, entryIndex: nat, c: nat)
    requires EntryOn(l, s0, [], 0, entryCluster, entryIndex, 0) && l.FitsOn(s1)
    requires FatOf(l, s1) == FatOf(l, s0) || (c < l.maximumCluster && FatOf(l, s1) == Allocated(FatOf(l, s0), c))
    requires ClusterOf(l, s1, entryCluster) == ClusterOf(l, s0, entryCluster)
    ensures EntryOn(l, s1, [], 0, entryCluster, entryIndex, 0)
  {
  }

  /** A cluster taken that nothing names. */
  lemma TakenConfined(l: Layout, s0: seq<byte>, s1: seq<byte>, entryCluster: nat, c: nat)
    requires l.Valid() && l.FitsOn(s0) && l.FitsOn(s1)
    requires FatOf(l, s1) == FatOf(l, s0) || (IsFree(FatOf(l, s0), c) && FatOf(l, s1) == Allocated(FatOf(l, s0), c))
    requires forall d :: l.InRange(d) ==> ClusterOf(l, s1, d) == ClusterOf(l, s0, d)
    ensures Confined(l, s0, [], entryCluster, s1, [])
  {
  }

  lemma EntryTouched(l: Layout, s0: seq<byte>, s1: seq<byte>, chain: seq<nat>, entryCluster: nat)
    requires l.Valid() && l.FitsOn(s0) && l.FitsOn(s1) && FatOf(l, s1) == FatOf(l, s0)
    requires forall d :: l.InRange(d) && d != entryCluster ==> ClusterOf(l, s1, d) == ClusterOf(l, s0, d)
    ensures Confined(l, s0, chain, entryCluster, s1, chain)
  {
  }

  /** The entry brought up to date with a new size. */
  lemma ResizedFile(l: Layout, s0: seq<byte>, s1: seq<byte>, chain: seq<nat>, first: nat,
                    entryCluster: nat, entryIndex: nat, size: nat, larger: nat)
    requires FileOn(l, s0, chain, first, entryCluster, entryIndex, size) && larger < 0x1_0000_0000
    requires l.FitsOn(s1) && FatOf(l, s1) == FatOf(l, s0)
    requires ClusterOf(l, s1, entryCluster) == WithSize(ClusterOf(l, s0, entryCluster), entryIndex, larger)
    requires forall d :: l.InRange(d) && d != entryCluster ==> ClusterOf(l, s1, d) == ClusterOf(l, s0, d)
    ensures FileOn(l, s1, chain, first, entryCluster, entryIndex, larger)
  {
    SizeIsSet(ClusterOf(l, s0, entryCluster), entryIndex, larger);
  }

  /** Clusters of the same data have the same bytes. */
  lemma SameBytes(l: Layout, s0: seq<byte>, s1: seq<byte>, front: seq<nat>)
    requires l.Valid() && l.FitsOn(s0) && l.FitsOn(s1) && forall i :: 0 <= i < |front| ==> l.InRange(front[i])
    requires forall d :: d in front ==> ClusterOf(l, s1, d) == ClusterOf(l, s0, d)
    ensures BytesOf(l, s1, front) == BytesOf(l, s0, front)
  {
    forall i | 0 <= i < |front| ensures BlocksOf(l, s1, front)[i] == BlocksOf(l, s0, front)[i] {
      assert front[i] in front;
    }
    assert BlocksOf(l, s1, front) == BlocksOf(l, s0, front);
  }

  // ---------------------------------------------------------------- the steps of a write

  /** The clusters other than `c`, and the FAT, are as they were. */
  twostate predicate OnlyClusterChanged(adapter: BlockIoAdapter, c: nat)
    requires old(adapter.Valid()) && adapter.Valid()
    reads adapter, adapter.device
  {
    && adapter.Fat() == old(adapter.Fat())
    && forall d :: adapter.layout.InRange(d) && d != c ==> adapter.Cluster(d) == old(adapter.Cluster(d))
  }

  /** Copies what fits of the rest of the buffer into the cluster and writes it.  The cluster is read
      first only when the offset is past its start; otherwise the block buffer `x` holds whatever it
      held before. */
  method PatchCluster(adapter: BlockIoAdapter, blockBuffer: seq<byte>, cluster: nat, offset: nat, rest: seq<byte>)
    returns (r: ResultCode, patched: seq<byte>, copied: nat, ghost x: seq<byte>)
    requires adapter.Valid() && adapter.layout.InRange(cluster)
    requires |blockBuffer| == adapter.layout.bytesPerCluster && offset <= adapter.layout.bytesPerCluster
    modifies adapter.device
    ensures adapter.device.reliable ==> r == SUCCESS
    ensures adapter.Valid() && OnlyClusterChanged(adapter, cluster)
    ensures r in {SUCCESS, DEVICE_READ_ERROR, DEVICE_WRITE_ERROR}
    ensures |patched| == |x| == adapter.layout.bytesPerCluster
    ensures copied == Min(adapter.layout.bytesPerCluster - offset, |rest|)
    ensures x == if 0 < offset && r != DEVICE_READ_ERROR then old(adapter.Cluster(cluster)) else blockBuffer
    ensures r != SUCCESS ==> adapter.device.storage == old(adapter.device.storage)
    ensures r == SUCCESS ==> adapter.Cluster(cluster) == patched == Splice(x, offset, rest[..copied])
    ensures r == SUCCESS ==>
              |old(adapter.Cluster(cluster))| == |blockBuffer|
              && patched == TurnResult(blockBuffer, old(adapter.Cluster(cluster)), offset, rest[..copied])
  {
    patched, x := blockBuffer, blockBuffer;
    copied := Min(adapter.layout.bytesPerCluster - offset, |rest|);
    if offset > 0 {
      var block := adapter.ReadCluster(cluster);
      if block.None? {
        return DEVICE_READ_ERROR, patched, copied, x;
      }
      patched, x := block.value, block.value;
    }
    patched := Splice(patched, offset, rest[..copied]);
    var ok := adapter.WriteCluster(cluster, patched);
    r := if ok then SUCCESS else DEVICE_WRITE_ERROR;
  }

  /** The free clusters from `n` on. */
  ghost function FreeFrom(fat: seq<nat>, n: nat): set<nat>
  {
    set c: nat | n <= c < |fat| && IsFree(fat, c)
  }

  /** The least free cluster taken, and nothing else from there on. */
  lemma OneFreeLess(fat: seq<nat>, after: seq<nat>, n: nat, c: nat)
    requires IsFree(fat, c) && n <= c && forall d :: n <= d < c && d < |fat| ==> fat[d] != EntryFree
    requires |after| == |fat| && forall d :: c < d < |fat| ==> after[d] == fat[d]
    ensures |FreeFrom(fat, n)| == 1 + |FreeFrom(after, c + 1)|
  {
    assert FreeFrom(fat, n) == {c} + FreeFrom(after, c + 1);
  }

  /** How many clusters a file can have: those it has and those free behind its last one; without any, those
      free from where a search begins. */
  ghost function RoomOf(chain: seq<nat>, fat: seq<nat>, start: nat): nat
  {
    if chain == [] then |FreeFrom(fat, start)| else |chain| + |FreeFrom(fat, Last(chain) + 1)|
  }

  lemma NoRoomLeft(chain: seq<nat>, fat: seq<nat>, start: nat)
    requires forall d :: (if chain == [] then start else Last(chain) + 1) <= d < |fat| ==> fat[d] != EntryFree
    ensures RoomOf(chain, fat, start) == |chain|
  {
    assert FreeFrom(fat, if chain == [] then start else Last(chain) + 1) == {};
  }

  /** Growing into the first free cluster behind the last one uses up one. */
  lemma GrownRoom(chain: seq<nat>, fat: seq<nat>, after: seq<nat>, c: nat, start: nat, later: nat)
    requires chain != [] && Last(chain) < c && IsFree(fat, c) && after == Extended(fat, Last(chain), c)
    requires forall d :: Last(chain) < d < c ==> fat[d] != EntryFree
    ensures RoomOf(chain + [c], after, later) == RoomOf(chain, fat, start)
  {
    OneFreeLess(fat, after, Last(chain) + 1, c);
  }

  lemma RoomBehindLast(chain: seq<nat>, fat: seq<nat>, start: nat, later: nat)
    requires chain != []
    ensures RoomOf(chain, fat, start) == RoomOf(chain, fat, later) && |chain| <= RoomOf(chain, fat, start)
  {
  }

  lemma StartedRoom(fat: seq<nat>, after: seq<nat>, c: nat, start: nat, later: nat)
    requires IsFree(fat, c) && start <= c && after == Allocated(fat, c)
    requires forall d :: start <= d < c ==> fat[d] != EntryFree
    ensures RoomOf([c], after, later) == RoomOf([], fat, start)
  {
    OneFreeLess(fat, after, start, c);
  }

  /** Links a free cluster behind the current one of a chain, cluster number `i`, and marks it as the new end.
      The chain is then cut behind the current cluster, and what lay there is a chain that nothing leads to.
      When the link is written and the mark is not, the link stays open. */
  method LinkNewCluster(adapter: BlockIoAdapter, current: nat, ghost chain: seq<nat>, ghost i: nat)
    returns (r: ResultCode, c: nat, ghost steps: seq<Step>)
    requires adapter.Valid() && IsChain(adapter.Fat(), chain) && i < |chain| && chain[i] == current
    modifies adapter.device, adapter`lastEmptyClusterFound
    ensures r in {SUCCESS, DEVICE_FULL, UNABLE_TO_READ_FAT_TABLE_SECTOR, UNABLE_TO_WRITE_FAT_TABLE_SECTOR}
    ensures adapter.device.reliable ==> r in {SUCCESS, DEVICE_FULL}
    ensures adapter.Valid()
    ensures forall d :: adapter.layout.InRange(d) ==>
              ClusterOf(adapter.layout, adapter.device.storage, d)
              == ClusterOf(adapter.layout, old(adapter.device.storage), d)
    ensures r == SUCCESS ==> steps == [LinkFrom(chain, i, c), Mark]
    ensures r != SUCCESS ==> steps == [] || (steps == [LinkFrom(chain, i, c)] && !adapter.device.reliable)
    ensures steps == [] ==> adapter.device.storage == old(adapter.device.storage)
    ensures steps != [] ==>
              && IsFree(old(adapter.Fat()), c) && current < c
              && forall d :: current < d < c ==> old(adapter.Fat())[d] != EntryFree
    ensures adapter.Fat() == if steps == [] then old(adapter.Fat())
                             else if r == SUCCESS then Extended(old(adapter.Fat()), current, c)
                             else old(adapter.Fat())[current := c]
    ensures Leads(old(adapter.Fat()), Owned(chain), steps, adapter.Fat(),
                  Owned(Relinked(chain, i, c, r, steps)) + CutOff(chain, i, steps))
    ensures Owned(Relinked(chain, i, c, r, steps)) !! CutOff(chain, i, steps)
    ensures IsOpen(steps) == (r != SUCCESS && steps != [])
    ensures r == DEVICE_FULL ==>
              && steps == []
              && forall d :: current < d < adapter.layout.maximumCluster ==> adapter.Fat()[d] != EntryFree
  {
    hide FatOf, ClusterOf, Splice, Encode32, Leads, IsOpen, Owned, Behind, IsChain;
    c, steps := 0, [];
    NotLinked(adapter.Fat(), chain);
    LinkAt(adapter.Fat(), chain, i);
    var next := adapter.FindNextEmptyCluster(current + 1);
    if next.Failure? {
      return next.code, c, steps;
    }
    c := next.value;
    LinkFromSteps(adapter.Fat(), chain, i, c);
    r := adapter.UpdateFatTableEntry(current, c);
    if r != SUCCESS {
      return;
    }
    steps := [LinkFrom(chain, i, c)];
    r := adapter.UpdateFatTableEntry(c, EndOfFile);
    if r == SUCCESS {
      steps := [LinkFrom(chain, i, c), Mark];
    }
  }

  /** The chain in hand after an attempt to link `c` behind cluster number `i`. */
  ghost function Relinked(chain: seq<nat>, i: nat, c: nat, r: ResultCode, steps: seq<Step>): seq<nat>
    requires i < |chain|
  {
    if steps == [] then chain else if r == SUCCESS then chain[..i + 1] + [c] else chain[..i + 1]
  }

  /** What such an attempt cuts off. */
  ghost function CutOff(chain: seq<nat>, i: nat, steps: seq<Step>): set<seq<nat>>
  {
    if steps == [] then {} else Behind(chain, i + 1)
  }

  lemma NotLinked(fat: seq<nat>, chain: seq<nat>)
    ensures Leads(fat, Owned(chain), [], fat, Owned(chain) + {}) && !IsOpen([])
  {
    NoSteps(fat, Owned(chain));
    assert Owned(chain) + {} == Owned(chain);
  }

  /** Takes a free cluster as the first of a new chain. */
  method TakeNewCluster(adapter: BlockIoAdapter) returns (r: ResultCode, c: nat, ghost steps: seq<Step>)
    requires adapter.Valid()
    modifies adapter.device, adapter`lastEmptyClusterFound
    ensures r in {SUCCESS, DEVICE_FULL, UNABLE_TO_READ_FAT_TABLE_SECTOR, UNABLE_TO_WRITE_FAT_TABLE_SECTOR}
    ensures adapter.device.reliable ==> r in {SUCCESS, DEVICE_FULL}
    ensures adapter.Valid() && adapter.DataUnchanged()
    ensures r == SUCCESS ==>
              && IsFree(old(adapter.Fat()), c) && adapter.Fat() == Allocated(old(adapter.Fat()), c)
              && adapter.layout.rootCluster <= c && old(adapter.lastEmptyClusterFound) <= c
              && forall d :: adapter.layout.rootCluster <= d < c && old(adapter.lastEmptyClusterFound) <= d ==>
                   old(adapter.Fat())[d] != EntryFree
    ensures r != SUCCESS ==> adapter.Fat() == old(adapter.Fat())
    ensures steps == if r == SUCCESS then [Allocate(c)] else []
    ensures Leads(old(adapter.Fat()), {}, steps, adapter.Fat(), if r == SUCCESS then Owned([c]) else {})
    ensures !IsOpen(steps)
    ensures r == DEVICE_FULL ==>
              adapter.NothingFreeBut(0) && adapter.lastEmptyClusterFound == old(adapter.lastEmptyClusterFound)
  {
    hide FatOf, ClusterOf, Splice, Encode32, Leads, IsOpen;
    c, steps := 0, [];
    NoSteps(adapter.Fat(), {});
    var next := adapter.FindNextEmptyCluster(0);
    if next.Failure? {
      return next.code, c, steps;
    }
    c := next.value;
    AllocateSteps(adapter.Fat(), {}, c);
    assert {} + {[c]} == Owned([c]);
    r := adapter.UpdateFatTableEntry(c, EndOfFile);
    if r != SUCCESS {
      r := UNABLE_TO_WRITE_FAT_TABLE_SECTOR;
    } else {
      steps := [Allocate(c)];
    }
  }

  /** How a write gets from one state of the device and of its chain to another: by steps that lead from one FAT
      to the other and from the one chain to the other and those that are lost, and nothing else in use has changed
      but the entry's cluster. */
  ghost predicate Onward(l: Layout, entryCluster: nat, s0: seq<byte>, c0: seq<nat>, steps: seq<Step>,
                         s1: seq<byte>, c1: seq<nat>, lost: set<seq<nat>>)
  {
    && l.Valid() && l.FitsOn(s0) && l.FitsOn(s1)
    && WellFormed(FatOf(l, s0), Owned(c0)) && Owned(c1) !! lost
    && Leads(FatOf(l, s0), Owned(c0), steps, FatOf(l, s1), Owned(c1) + lost)
    && Confined(l, s0, c0, entryCluster, s1, c1)
  }

  /** Nothing done. */
  lemma NotConfined(l: Layout, storage: seq<byte>, chain: seq<nat>, entryCluster: nat)
    requires l.Valid() && l.FitsOn(storage)
    ensures Confined(l, storage, chain, entryCluster, storage, chain)
  {
  }

  lemma OnwardOn(l: Layout, entryCluster: nat, s0: seq<byte>, c0: seq<nat>, steps: seq<Step>,
                 s1: seq<byte>, c1: seq<nat>, lost: set<seq<nat>>, more: seq<Step>, s2: seq<byte>, c2: seq<nat>,
                 lostNow: set<seq<nat>>)
    requires Onward(l, entryCluster, s0, c0, steps, s1, c1, lost) && !IsOpen(steps)
    requires Onward(l, entryCluster, s1, c1, more, s2, c2, lostNow)
    ensures Onward(l, entryCluster, s0, c0, steps + more, s2, c2, lost + lostNow)
    ensures IsOpen(steps + more) == IsOpen(more)
  {
    hide Leads, IsOpen, Confined, FatOf, WellFormed, Owned;
    ConfinedTransitive(l, s0, c0, entryCluster, s1, c1, s2, c2);
    LossesJoin(FatOf(l, s0), Owned(c0), steps, FatOf(l, s1), Owned(c1), lost, more, FatOf(l, s2), Owned(c2), lostNow);
  }

  /** What an operation has lost stays lost in the next one. */
  lemma LossesJoin(fat0: seq<nat>, own0: set<seq<nat>>, steps: seq<Step>, fat1: seq<nat>, own1: set<seq<nat>>,
                   lost: set<seq<nat>>, more: seq<Step>, fat2: seq<nat>, own2: set<seq<nat>>, lostNow: set<seq<nat>>)
    requires WellFormed(fat0, own0) && own1 !! lost && !IsOpen(steps)
    requires Leads(fat0, own0, steps, fat1, own1 + lost) && Leads(fat1, own1, more, fat2, own2 + lostNow)
    requires own2 !! lostNow
    ensures Leads(fat0, own0, steps + more, fat2, own2 + (lost + lostNow)) && IsOpen(steps + more) == IsOpen(more)
    ensures own2 !! lost + lostNow
  {
    hide Leads, IsOpen, WellFormed, Accounted, Apart;
    assert own0 + {} == own0 && own1 + lost + {} == own1 + lost;
    OperationKeeps(fat0, own0, steps, fat1, own1 + lost, {});
    LeadsBeside(fat1, own1, more, fat2, own2 + lostNow, lost);
    assert own2 + lostNow + lost == own2 + (lost + lostNow);
    LeadsOn(fat0, own0, steps, fat1, own1 + lost, more, fat2, own2 + (lost + lostNow));
  }

  /** A link alone. */
  lemma OpenOnward(l: Layout, s0: seq<byte>, s1: seq<byte>, chain: seq<nat>, entryCluster: nat, i: nat, c: nat,
                   steps: seq<Step>)
    requires l.Valid() && l.FitsOn(s0) && l.FitsOn(s1) && IsChain(FatOf(l, s0), chain) && i < |chain|
    requires chain[i] < l.maximumCluster && FatOf(l, s1) == FatOf(l, s0)[chain[i] := c]
    requires forall d :: l.InRange(d) ==> ClusterOf(l, s1, d) == ClusterOf(l, s0, d)
    requires Leads(FatOf(l, s0), Owned(chain), steps, FatOf(l, s1), Owned(chain[..i + 1]) + Behind(chain, i + 1))
    requires Owned(chain[..i + 1]) !! Behind(chain, i + 1)
    ensures Onward(l, entryCluster, s0, chain, steps, s1, chain[..i + 1], Behind(chain, i + 1))
  {
    hide Leads, Owned, Behind, Confined, IsChain, WellFormed, ClusterOf;
    LinkFailed(l, s0, s1, chain, entryCluster, i, c);
    OneChainWellFormed(FatOf(l, s0), chain);
  }

  /** A link and its mark. */
  lemma EntryClusterInRange(l: Layout, s: seq<byte>, chain: seq<nat>, first: nat, entryCluster: nat, entryIndex: nat,
                            size: nat)
    requires FileOn(l, s, chain, first, entryCluster, entryIndex, size)
    ensures l.InRange(entryCluster)
  {
  }

  lemma GrownOnward(l: Layout, s0: seq<byte>, s1: seq<byte>, chain: seq<nat>, first: nat,
                    entryCluster: nat, entryIndex: nat, size: nat, i: nat, c: nat, steps: seq<Step>)
    requires FileOn(l, s0, chain, first, entryCluster, entryIndex, size) && i < |chain|
    requires l.FitsOn(s1) && IsFree(FatOf(l, s0), c) && Product(i + 2, l.bytesPerCluster) < 0x1_0000_0000
    requires chain[i] < l.maximumCluster && FatOf(l, s1) == Extended(FatOf(l, s0), chain[i], c)
    requires forall d :: l.InRange(d) ==> ClusterOf(l, s1, d) == ClusterOf(l, s0, d)
    requires Leads(FatOf(l, s0), Owned(chain), steps, FatOf(l, s1), Owned(chain[..i + 1] + [c]) + Behind(chain, i + 1))
    requires Owned(chain[..i + 1] + [c]) !! Behind(chain, i + 1)
    ensures Onward(l, entryCluster, s0, chain, steps, s1, chain[..i + 1] + [c], Behind(chain, i + 1))
    ensures FileOn(l, s1, chain[..i + 1] + [c], first, entryCluster, entryIndex, size)
    ensures var longer := chain[..i + 1] + [c];
            && (forall j :: 0 <= j < |longer| ==> l.InRange(longer[j]))
            && BytesOf(l, s0, chain[..i + 1]) <= BytesOf(l, s1, longer)
  {
    hide Leads, Owned, Behind, Confined, WellFormed, ClusterOf, BytesOf, Extended;
    GrownFile(l, s0, s1, chain, first, entryCluster, entryIndex, size, i, c);
    OneChainWellFormed(FatOf(l, s0), chain);
    BytesGrown(l, s0, s1, chain[..i + 1], c);
  }

  lemma EmptyOwnsNothing(fat: seq<nat>)
    requires |fat| <= EntryDefective
    ensures Owned([]) == {} && Owned([]) + {} == {} && WellFormed(fat, Owned([]))
  {
  }

  lemma OneChainWellFormed(fat: seq<nat>, chain: seq<nat>)
    requires |fat| <= EntryDefective && (chain != [] ==> IsChain(fat, chain))
    ensures WellFormed(fat, Owned(chain))
  {
  }

  /** How many of the `m` clusters of a file, each of `n` bytes, a write from number `i` on runs through before it
      grows the file: as many as it takes to get to one that reaches the size. */
  function Through(n: nat, size: nat, i: nat, m: nat): (k: nat)
    requires i < m && size <= Product(m, n)
    ensures i < k <= m && size <= Product(k, n)
    ensures Product(i + 1, n) <= Product(k, n) <= Product(m, n)
    decreases m - i
  {
    ProductMonotone(i + 1, m, n);
    if size <= Product(i + 1, n) then i + 1
    else
      ProductMonotone(i + 1, i + 2, n);
      Through(n, size, i + 1, m)
  }

  /** How a write up to `end` may have got from the chain `c0` with the front `f0` to the chain `c1` with the front
      `f1`: it has not grown the file; or it has put new clusters behind the old front, which it has filled, and
      lost what lay there. */
  ghost predicate WentTo(n: nat, c0: seq<nat>, f0: seq<nat>, end: nat, c1: seq<nat>, f1: seq<nat>, lost: set<seq<nat>>)
  {
    || (c1 == c0 && f1 == f0 && lost == {})
    || (f0 < c1 && f1 == c1 && lost == Behind(c0, |f0|) && Product(|f0|, n) < end)
  }

  lemma WentOn(n: nat, c0: seq<nat>, f0: seq<nat>, end: nat, c1: seq<nat>, f1: seq<nat>, lost: set<seq<nat>>,
               c2: seq<nat>, f2: seq<nat>, lostNow: set<seq<nat>>)
    requires WentTo(n, c0, f0, end, c1, f1, lost) && WentTo(n, c1, f1, end, c2, f2, lostNow)
    ensures WentTo(n, c0, f0, end, c2, f2, lost + lostNow)
  {
    assert {} + lostNow == lostNow && lost + {} == lost;
  }

  lemma WentFurther(n: nat, c0: seq<nat>, f0: seq<nat>, end: nat, c1: seq<nat>, f1: seq<nat>, lost: set<seq<nat>>,
                    further: nat)
    requires WentTo(n, c0, f0, end, c1, f1, lost) && end <= further
    ensures WentTo(n, c0, f0, further, c1, f1, {} + lost)
  {
    assert {} + lost == lost;
  }

  lemma FrontOfAppended(bytes: seq<byte>, base: seq<byte>, part: seq<byte>, size: nat, now: nat)
    requires now <= |bytes| && bytes[..now] == base + part && size <= |base|
    ensures size <= |bytes| && bytes[..size] == base[..size]
  {
    assert bytes[..size] == bytes[..now][..size];
  }

  /** What a write leaves that stops at `now`, of a file that ends inside the bytes. */
  lemma StoppedIs(before: seq<byte>, after: seq<byte>, size: nat, at: nat, buffer: seq<byte>, now: nat, kept: nat)
    requires at <= now <= at + |buffer| && Written(before, after, at, buffer[..now - at], kept) && kept <= now
    requires size <= |before|
    ensures size <= |after| && now <= |after| && at <= |before|
    ensures after[..now] == before[..at] + buffer[..now - at]
    ensures now <= size ==> after[..size][now..] == before[..size][now..]
  {
    if now <= size {
      ContentsWritten(before, after, size, at, buffer[..now - at], kept, size);
    }
  }

  /** While a write with `left` bytes to go is still in the cluster it began in, it has not gone on from there; and
      when it ends there and began inside it, the bytes stay from its end on. */
  ghost predicate KeptAtOnce(place0: nat, off0: nat, place: nat, off: nat, left: nat, kept: nat, at: nat)
  {
    && place0 <= place && (place == place0 && 0 < left ==> off == off0)
    && (place == place0 && left == 0 && 0 < off0 ==> kept == at)
  }

  lemma KeptByTurn(place0: nat, off0: nat, place: nat, off: nat, left: nat, kept: nat, copied: nat,
                   nextPlace: nat, nextOff: nat, keptNow: nat, now: nat)
    requires copied <= left && 0 < left && copied <= now
    requires KeptAtOnce(place0, off0, place, off, left, kept, now - copied)
    requires copied < left ==> nextPlace == place + 1
    requires copied == left ==> nextPlace == place && (0 < off ==> keptNow == now)
    ensures KeptAtOnce(place0, off0, nextPlace, nextOff, left - copied, keptNow, now)
  {
  }

  /** What a handle that stands in its file's chain has come to, with what the device holds. */
  datatype Moment = Moment(storage: seq<byte>, chain: seq<nat>, front: seq<nat>, bytes: seq<byte>, place: nat,
                           off: nat, at: nat, room: nat, entry: seq<byte>)

  /** A turn that leaves no link open: it has put the first part of the rest into the bytes of the front. */
  ghost predicate TurnMade(l: Layout, entryCluster: nat, m0: Moment, m1: Moment, rest: seq<byte>, copied: nat,
                           kept: nat, steps: seq<Step>, lost: set<seq<nat>>)
  {
    && copied <= |rest| && m1.at == m0.at + copied && m1.room == m0.room && m1.entry == m0.entry
    && Onward(l, entryCluster, m0.storage, m0.chain, steps, m1.storage, m1.chain, lost) && !IsOpen(steps)
    && WentTo(l.bytesPerCluster, m0.chain, m0.front, m0.at + |rest|, m1.chain, m1.front, lost)
    && Written(m0.bytes, m1.bytes, m0.at, rest[..copied], kept)
    && (copied < |rest| ==> kept == m1.at)
  }

  /** And it has succeeded: `x` is what the block buffer held, and `block` what it holds now. */
  ghost predicate TurnWhole(n: nat, m0: Moment, m1: Moment, rest: seq<byte>, copied: nat, kept: nat,
                            x: seq<byte>, block: seq<byte>)
  {
    && m0.off <= n && copied == Min(n - m0.off, |rest|) && copied <= |rest|
    && (copied < |rest| ==> m1.place == m0.place + 1 && m1.off == 0)
    && (copied == |rest| ==> m1.place == m0.place && kept <= Product(m1.place + 1, n))
    && (copied == |rest| && 0 < m0.off ==> kept == m1.at)
    && (copied == 0 ==> 0 < m0.off)
    && (m1.place < |m0.front| ==>
          && m1.front == m0.front
          && TurnDone(m0.bytes, n, Product(m0.place, n), m0.off, rest[..copied], x, block, m1.bytes))
  }

  lemma TurnIsMade(l: Layout, entryCluster: nat, m0: Moment, m1: Moment, rest: seq<byte>, copied: nat, kept: nat,
                   steps: seq<Step>, lost: set<seq<nat>>)
    requires copied <= |rest| && m1.at == m0.at + copied && m1.room == m0.room && m1.entry == m0.entry
    requires Onward(l, entryCluster, m0.storage, m0.chain, steps, m1.storage, m1.chain, lost) && !IsOpen(steps)
    requires WentTo(l.bytesPerCluster, m0.chain, m0.front, m0.at + |rest|, m1.chain, m1.front, lost)
    requires Written(m0.bytes, m1.bytes, m0.at, rest[..copied], kept) && (copied < |rest| ==> kept == m1.at)
    ensures TurnMade(l, entryCluster, m0, m1, rest, copied, kept, steps, lost)
  {
    hide Onward, IsOpen, WentTo, Written;
  }

  lemma TurnIsWhole(n: nat, m0: Moment, m1: Moment, rest: seq<byte>, copied: nat, kept: nat, x: seq<byte>,
                    block: seq<byte>)
    requires m0.off <= n && copied == Min(n - m0.off, |rest|) && copied <= |rest|
    requires copied < |rest| ==> m1.place == m0.place + 1 && m1.off == 0
    requires copied == |rest| ==> m1.place == m0.place && kept <= Product(m1.place + 1, n)
    requires copied == |rest| && 0 < m0.off ==> kept == m1.at
    requires copied == 0 ==> 0 < m0.off
    requires m1.place < |m0.front| ==>
               m1.front == m0.front
               && TurnDone(m0.bytes, n, Product(m0.place, n), m0.off, rest[..copied], x, block, m1.bytes)
    ensures TurnWhole(n, m0, m1, rest, copied, kept, x, block)
  {
    hide TurnDone, Product;
  }

  /** The write does not reach past the front. */
  ghost predicate Inside(n: nat, m: Moment, buffer: seq<byte>)
  {
    buffer != [] && m.at + |buffer| <= Product(|m.front|, n)
  }

  lemma InsideIs(n: nat, m: Moment, buffer: seq<byte>)
    ensures Inside(n, m, buffer) <==> buffer != [] && m.at + |buffer| <= Product(|m.front|, n)
  {
  }

  /** The loop of `Write` after `done` bytes. */
  ghost predicate Underway(l: Layout, entryCluster: nat, m0: Moment, m: Moment, buffer: seq<byte>, stack: seq<byte>,
                           done: nat, kept: nat, x: seq<byte>, steps: seq<Step>, lost: set<seq<nat>>)
  {
    var n := l.bytesPerCluster;
    && done <= |buffer| && m.at == m0.at + done && m.room == m0.room && m.entry == m0.entry
    && Onward(l, entryCluster, m0.storage, m0.chain, steps, m.storage, m.chain, lost) && !IsOpen(steps)
    && WentTo(n, m0.chain, m0.front, m0.at + |buffer|, m.chain, m.front, lost)
    && SoFar(m0.bytes, m.bytes, n, m0.at, m0.off, buffer, stack, done, kept, m.off, x, Inside(n, m0, buffer))
    && (Inside(n, m0, buffer) ==> m.front == m0.front)
    && kept <= (if done == |buffer| then Product(m.place + 1, n) else m.at)
    && KeptAtOnce(m0.place, m0.off, m.place, m.off, |buffer| - done, kept, m.at)
  }

  lemma UnderwayAtStart(l: Layout, entryCluster: nat, m: Moment, buffer: seq<byte>, stack: seq<byte>)
    requires Onward(l, entryCluster, m.storage, m.chain, [], m.storage, m.chain, {}) && !IsOpen([])
    requires m.at <= |m.bytes| && m.at <= Product(m.place + 1, l.bytesPerCluster) && |stack| == l.bytesPerCluster
    requires Inside(l.bytesPerCluster, m, buffer) ==>
               && 0 < l.bytesPerCluster && m.off <= l.bytesPerCluster && m.off <= m.at
               && m.at - m.off + Reach(l.bytesPerCluster, m.off, |buffer|) <= |m.bytes|
    ensures Underway(l, entryCluster, m, m, buffer, stack, 0, m.at, stack, [], {})
  {
    hide Onward, IsOpen, SoFar, Product, Reach;
    SoFarAtStart(m.bytes, l.bytesPerCluster, m.at, m.off, buffer, stack, Inside(l.bytesPerCluster, m, buffer));
  }

  lemma UnderwayByTurn(l: Layout, entryCluster: nat, m0: Moment, m: Moment, m1: Moment, buffer: seq<byte>,
                       stack: seq<byte>, done: nat, kept: nat, x: seq<byte>, steps: seq<Step>, lost: set<seq<nat>>,
                       copied: nat, keptNow: nat, block: seq<byte>, more: seq<Step>, lostNow: set<seq<nat>>)
    requires Underway(l, entryCluster, m0, m, buffer, stack, done, kept, x, steps, lost) && done < |buffer|
    requires TurnMade(l, entryCluster, m, m1, buffer[done..], copied, keptNow, more, lostNow)
    requires TurnWhole(l.bytesPerCluster, m, m1, buffer[done..], copied, keptNow, x, block)
    requires m.off <= l.bytesPerCluster && m.at == Product(m.place, l.bytesPerCluster) + m.off
    requires Inside(l.bytesPerCluster, m0, buffer) ==>
               && m.place < |m.front|
               && (Min(l.bytesPerCluster - m.off, |buffer| - done) < |buffer| - done ==> m.place + 1 < |m.front|)
    ensures Underway(l, entryCluster, m0, m1, buffer, stack, done + copied, keptNow, block, steps + more,
                     lost + lostNow)
  {
    hide Onward, IsOpen, WentTo, SoFar, Written, KeptAtOnce, TurnDone, Product;
    var n, inside := l.bytesPerCluster, Inside(l.bytesPerCluster, m0, buffer);
    OnwardOn(l, entryCluster, m0.storage, m0.chain, steps, m.storage, m.chain, lost, more, m1.storage, m1.chain,
             lostNow);
    WentOn(n, m0.chain, m0.front, m0.at + |buffer|, m.chain, m.front, lost, m1.chain, m1.front, lostNow);
    KeptByTurn(m0.place, m0.off, m.place, m.off, |buffer| - done, kept, copied, m1.place, m1.off, keptNow, m1.at);
    SoFarByTurn(m0.bytes, n, m0.at, m0.off, buffer, stack, inside, m.bytes, done, kept, m.off, x, copied, keptNow,
                m1.off, block, m1.bytes);
  }

  /** The turn is the last one, because it has failed. */
  lemma UnderwayStops(l: Layout, entryCluster: nat, m0: Moment, m: Moment, m1: Moment, buffer: seq<byte>,
                      stack: seq<byte>, done: nat, kept: nat, x: seq<byte>, steps: seq<Step>, lost: set<seq<nat>>,
                      copied: nat, keptNow: nat, more: seq<Step>, lostNow: set<seq<nat>>)
    requires Underway(l, entryCluster, m0, m, buffer, stack, done, kept, x, steps, lost) && done < |buffer|
    requires TurnMade(l, entryCluster, m, m1, buffer[done..], copied, keptNow, more, lostNow)
    requires copied < |buffer| - done
    ensures TurnMade(l, entryCluster, m0, m1, buffer, done + copied, keptNow, steps + more, lost + lostNow)
  {
    hide Onward, IsOpen, WentTo, SoFar, Written, KeptAtOnce, Product;
    var n, inside := l.bytesPerCluster, Inside(l.bytesPerCluster, m0, buffer);
    OnwardOn(l, entryCluster, m0.storage, m0.chain, steps, m.storage, m.chain, lost, more, m1.storage, m1.chain,
             lostNow);
    WentOn(n, m0.chain, m0.front, m0.at + |buffer|, m.chain, m.front, lost, m1.chain, m1.front, lostNow);
    StoppedByTurn(m0.bytes, n, m0.at, m0.off, buffer, stack, inside, m.bytes, done, kept, m.off, x, copied, keptNow,
                  m1.bytes);
  }

  /** And has left a link open. */
  lemma UnderwayOpens(l: Layout, entryCluster: nat, m0: Moment, m: Moment, buffer: seq<byte>,
                      stack: seq<byte>, done: nat, kept: nat, x: seq<byte>, steps: seq<Step>, lost: set<seq<nat>>,
                      more: seq<Step>, storage: seq<byte>, chain: seq<nat>, lostNow: set<seq<nat>>)
    requires Underway(l, entryCluster, m0, m, buffer, stack, done, kept, x, steps, lost)
    requires Onward(l, entryCluster, m.storage, m.chain, more, storage, chain, lostNow) && IsOpen(more)
    ensures Onward(l, entryCluster, m0.storage, m0.chain, steps + more, storage, chain, lost + lostNow)
    ensures IsOpen(steps + more)
  {
    hide Onward, IsOpen, WentTo, SoFar, KeptAtOnce;
    OnwardOn(l, entryCluster, m0.storage, m0.chain, steps, m.storage, m.chain, lost, more, storage, chain, lostNow);
  }

  lemma UnderwayEnds(l: Layout, entryCluster: nat, m0: Moment, m: Moment, buffer: seq<byte>, stack: seq<byte>,
                     kept: nat, x: seq<byte>, steps: seq<Step>, lost: set<seq<nat>>)
    requires Underway(l, entryCluster, m0, m, buffer, stack, |buffer|, kept, x, steps, lost)
    ensures TurnMade(l, entryCluster, m0, m, buffer, |buffer|, kept, steps, lost)
    ensures Inside(l.bytesPerCluster, m0, buffer) ==>
              ResultIs(m0.bytes, l.bytesPerCluster, m0.at, m0.off, buffer, stack, m.bytes)
    ensures kept <= Product(m.place + 1, l.bytesPerCluster) && (m.place == m0.place && 0 < m0.off ==> kept == m.at)
  {
    hide Onward, IsOpen, WentTo, SoFar, Written, Product, ResultIs;
    AllDone(m0.bytes, m.bytes, l.bytesPerCluster, m0.at, m0.off, buffer, stack, kept, m.off, x,
            Inside(l.bytesPerCluster, m0, buffer));
    assert buffer[..|buffer|] == buffer;
  }

  class FatFile {
    const adapter: BlockIoAdapter
    const entryCluster: nat
    const entryIndex: nat
    var size: nat
    var firstCluster: nat
    var currentCluster: nat
    var byteOffsetIntoCluster: nat
    var byteOffsetIntoFile: nat

    // The file's chain, and which of its clusters is the current one.
    ghost var chain: seq<nat>
    ghost var place: nat

    /** Opens the file whose entry lies at the given place, positioned at its start.  The chain may be longer than
        the size needs. */
    constructor (a: BlockIoAdapter, cluster: nat, index: nat, first: nat, length: nat, ghost clusters: seq<nat>)
      requires a.Valid() && a.layout.InRange(cluster)
      requires EntrySize * index + EntrySize <= a.layout.bytesPerCluster
      requires cluster !in clusters && a.Fat()[cluster] != EntryFree
      requires FirstClusterOf(a.Cluster(cluster), index) == first && SizeOf(a.Cluster(cluster), index) == length
      requires if clusters == [] then first == 0 && length == 0
               else && IsChain(a.Fat(), clusters) && clusters[0] == first
                    && length <= Product(|clusters|, a.layout.bytesPerCluster) < 0x1_0000_0000
      ensures Valid() && adapter == a && chain == clusters && size == length && byteOffsetIntoFile == 0
    {
      adapter, entryCluster, entryIndex := a, cluster, index;
      size, firstCluster, currentCluster := length, first, first;
      byteOffsetIntoCluster, byteOffsetIntoFile := 0, 0;
      chain, place := clusters, 0;
      if clusters != [] {
        ProductMonotone(1, |clusters|, a.layout.bytesPerCluster);
      }
    }

    /** The position in the file at which its `i`th cluster starts. */
    function Boundary(i: nat): nat
    {
      Product(i, adapter.layout.bytesPerCluster)
    }

    ghost predicate EntryAgrees()
      reads this`chain, this`firstCluster, this`size, adapter, adapter.device
    {
      && adapter.Valid()
      && EntryOn(adapter.layout, adapter.device.storage, chain, firstCluster, entryCluster, entryIndex, size)
    }

    ghost predicate OnChain()
      reads this`chain, this`firstCluster, this`size, adapter, adapter.device
    {
      && EntryAgrees()
      && FileOn(adapter.layout, adapter.device.storage, chain, firstCluster, entryCluster, entryIndex, size)
      && size <= Boundary(|chain|)
    }

    /** The position is in the current cluster of the chain, possibly just past its last byte. */
    ghost predicate Positioned()
      reads this`chain, this`place, this`currentCluster, this`byteOffsetIntoCluster, this`byteOffsetIntoFile
    {
      && place < |chain| && currentCluster == chain[place]
      && byteOffsetIntoCluster <= adapter.layout.bytesPerCluster
      && byteOffsetIntoFile == Boundary(place) + byteOffsetIntoCluster
      && Boundary(place + 1) <= Boundary(|chain|)
    }

    /** The handle agrees with the disk and stands in the file's chain, or the file has no cluster.  The position
        may be past the size. */
    ghost predicate Valid()
      reads this, adapter, adapter.device
    {
      && EntryAgrees()
      && if chain == [] then
           firstCluster == 0 && currentCluster == 0 && size == 0
           && byteOffsetIntoCluster == 0 && byteOffsetIntoFile == 0 && place == 0
         else OnChain() && Positioned()
    }

    /** The bytes of the file's clusters. */
    ghost function Bytes(): (b: seq<byte>)
      requires OnChain()
      reads this`chain, this`firstCluster, this`size, adapter, adapter.device
      ensures |b| == Boundary(|chain|)
    {
      BytesOf(adapter.layout, adapter.device.storage, chain)
    }

    /** What the file holds. */
    ghost function Contents(): (c: seq<byte>)
      requires Valid()
      reads this, adapter, adapter.device
      ensures |c| == size
    {
      if chain == [] then [] else Bytes()[..size]
    }

    /** The cluster of the directory that holds the file's entry. */
    ghost function EntryBlock(): seq<byte>
      reads adapter, adapter.device
    {
      if adapter.Valid() && adapter.layout.InRange(entryCluster) then adapter.Cluster(entryCluster) else []
    }

    // -------------------------------------------------------------- the front of the file

    /** The clusters a write from cluster `i` on runs through before it grows the file, with those before. */
    ghost function FrontFrom(i: nat): (f: seq<nat>)
      reads this`chain, this`size
      ensures f <= chain && (chain != [] ==> f != [])
    {
      if i < |chain| && size <= Boundary(|chain|) then
        chain[..Through(adapter.layout.bytesPerCluster, size, i, |chain|)]
      else chain
    }

    ghost function Front(): (f: seq<nat>)
      reads this`chain, this`size, this`place
      ensures f <= chain && (chain != [] ==> f != [])
    {
      FrontFrom(place)
    }

    /** The bytes of these clusters. */
    ghost function FrontBytes(): (b: seq<byte>)
      requires OnChain()
      reads this`chain, this`firstCluster, this`size, this`place, adapter, adapter.device
      ensures |b| == Boundary(|Front()|)
    {
      BytesOf(adapter.layout, adapter.device.storage, Front())
    }

    /** How many clusters a write from cluster `i` on can reach: those of the front and the free ones behind its
        last.  Growing from a cluster that is not the last loses those behind it. */
    ghost function RoomFrom(i: nat): nat
      requires adapter.Valid()
      reads this`chain, this`size, adapter, adapter.device
    {
      RoomOf(FrontFrom(i), adapter.Fat(), adapter.SearchStart())
    }

    ghost function Room(): nat
      requires adapter.Valid()
      reads this`chain, this`size, this`place, adapter, adapter.device
    {
      RoomFrom(place)
    }

    /** A write from cluster `i` on up to `end` loses clusters: the chain goes on behind the front, and the write
        does not fit the front and finds a free cluster behind it. */
    ghost predicate LosesFrom(i: nat, end: nat)
      requires adapter.Valid()
      reads this`chain, this`size, adapter, adapter.device
    {
      && |FrontFrom(i)| < |chain| && Boundary(|FrontFrom(i)|) < end
      && |FrontFrom(i)| < RoomFrom(i)
    }

    /** What a write can leave in place: the bytes of the front. */
    ghost function Reached(): (b: seq<byte>)
      requires Valid()
      reads this, adapter, adapter.device
      ensures |b| == Boundary(|Front()|) && byteOffsetIntoFile <= |b| && size <= |b|
    {
      if chain == [] then []
      else
        FrontReaches();
        FrontBytes()
    }

    lemma FrontReaches()
      requires OnChain() && Positioned()
      ensures place < |Front()| <= |chain| && Front() == chain[..|Front()|] && size <= Boundary(|Front()|)
      ensures byteOffsetIntoFile <= Boundary(place + 1) <= Boundary(|Front()|) <= Boundary(|chain|) < 0x1_0000_0000
      ensures place + 1 < |Front()| <==> Boundary(place + 1) < size
      ensures adapter.layout.Valid() && adapter.layout.FitsOn(adapter.device.storage)
      ensures Distinct(Front()) && forall j :: 0 <= j < |Front()| ==> adapter.layout.InRange(Front()[j])
      ensures IsChain(adapter.Fat(), chain) && |adapter.Fat()| == adapter.layout.maximumCluster
      ensures currentCluster == Front()[place] && size <= Boundary(|chain|)
      ensures Boundary(place + 1) == Boundary(place) + adapter.layout.bytesPerCluster
      ensures adapter.Valid() && byteOffsetIntoFile == Boundary(place) + byteOffsetIntoCluster
      ensures byteOffsetIntoCluster <= adapter.layout.bytesPerCluster
      ensures adapter.Fat() == FatOf(adapter.layout, adapter.device.storage)
    {
    }

    /** What the file holds lies in the front. */
    lemma FrontHolds()
      requires OnChain() && Positioned()
      ensures Valid() && chain != [] && size <= |FrontBytes()| && Contents() == FrontBytes()[..size]
      ensures FrontBytes() == Bytes()[..Boundary(|Front()|)]
    {
      hide BytesOf, Product;
      FrontReaches();
      BytesOfFront(adapter.layout, adapter.device.storage, chain, |Front()|);
    }

    /** The same in terms of the bytes a write can leave in place. */
    lemma ReachedIs()
      requires Valid()
      ensures chain != [] ==> OnChain() && Positioned() && Reached() == FrontBytes()
      ensures chain == [] ==> Reached() == [] && Front() == [] && byteOffsetIntoFile == size == 0
      ensures size <= |Reached()| && byteOffsetIntoFile <= |Reached()| && Contents() == Reached()[..size]
      ensures adapter.Valid() && adapter.layout.FitsOn(adapter.device.storage)
      ensures adapter.Fat() == FatOf(adapter.layout, adapter.device.storage)
    {
      hide BytesOf, FrontFrom;
      if chain != [] {
        FrontReaches();
        FrontHolds();
      }
    }

    /** The next cluster has the same front while the size lies behind the current one. */
    lemma FrontStays(i: nat)
      requires i + 1 < |chain| && Boundary(i + 1) < size <= Boundary(|chain|)
      ensures FrontFrom(i) == FrontFrom(i + 1)
    {
    }

    /** A size that ends in the current cluster or before leaves no cluster behind it in the front. */
    lemma FrontEndsHere()
      requires place < |chain| && size <= Boundary(place + 1) <= Boundary(|chain|)
      ensures Front() == chain[..place + 1]
    {
    }

    /** A file without a cluster has room for one exactly if there is one that is free, and below the maximum, at or
        behind both the root cluster and the highest one found before. */
    lemma EmptyHasRoom(n: nat)
      requires Valid() && chain == [] && n <= adapter.layout.bytesPerCluster
      ensures byteOffsetIntoFile == size == 0
      ensures 1 <= Room() ==> n <= Boundary(Room())
      ensures 1 <= Room() <==>
              exists c: nat :: && adapter.layout.rootCluster <= c < adapter.layout.maximumCluster
                               && adapter.lastEmptyClusterFound <= c && adapter.Fat()[c] == 0
    {
      var free := FreeFrom(adapter.Fat(), adapter.SearchStart());
      assert Room() == |free|;
      if free != {} {
        var d: nat :| d in free;
        assert adapter.Fat()[d] == 0;
        ProductMonotone(1, Room(), adapter.layout.bytesPerCluster);
      }
      if c: nat :| && adapter.layout.rootCluster <= c < adapter.layout.maximumCluster
                   && adapter.lastEmptyClusterFound <= c && adapter.Fat()[c] == 0 {
        assert c in free;
      }
    }

    lemma RoomSuffices()
      requires OnChain() && Positioned()
      ensures adapter.Valid() && |Front()| <= Room() && Boundary(|Front()|) <= Boundary(Room()) && 1 <= Room()
    {
      FrontReaches();
      ProductMonotone(|Front()|, Room(), adapter.layout.bytesPerCluster);
    }

    // -------------------------------------------------------------- moving about

    /** Moves to the next cluster of the chain; `atEnd` when there is none. */
    method MoveToNextCluster() returns (r: ResultCode, atEnd: bool)
      requires OnChain() && Positioned() && byteOffsetIntoCluster == adapter.layout.bytesPerCluster
      modifies this`currentCluster, this`byteOffsetIntoCluster, this`place
      ensures adapter.device.reliable ==> r == SUCCESS
      ensures Positioned()
      ensures r in {SUCCESS, UNABLE_TO_READ_FAT_TABLE_SECTOR}
      ensures r != SUCCESS || atEnd ==> place == old(place) && byteOffsetIntoCluster == old(byteOffsetIntoCluster)
      ensures r == SUCCESS ==> atEnd == (old(place) == |chain| - 1)
      ensures r == SUCCESS && !atEnd ==> place == old(place) + 1 && byteOffsetIntoCluster == 0
    {
      LinkAt(adapter.Fat(), chain, place);
      atEnd := false;
      var next := adapter.NextClusterInChain(currentCluster);
      if next.Failure? {
        return next.code, atEnd;
      }
      if next.value >= EOFThreshold {
        return SUCCESS, true;
      }
      currentCluster := next.value;
      byteOffsetIntoCluster := 0;
      place := place + 1;
      ProductMonotone(place + 1, |chain|, adapter.layout.bytesPerCluster);
      return SUCCESS, false;
    }

    /** Moves the position.  A move to the start or forward arrives, or stops at the end of the file; a backward
        move to any other place, or from past the end of the file, stops at the end of the current cluster. */
    method Seek(position: nat) returns (r: ResultCode)
      requires Valid() && position < 0x1_0000_0000
      modifies this`currentCluster, this`byteOffsetIntoCluster, this`byteOffsetIntoFile, this`place
      ensures adapter.device.reliable ==> r == SUCCESS
      ensures r in {SUCCESS, UNABLE_TO_READ_FAT_TABLE_SECTOR}
      ensures Valid() && Contents() == old(Contents())
      ensures position == 0 ==> byteOffsetIntoFile == place == 0
      ensures position != 0 ==> Front() == old(Front())
      ensures var target := Min(position, size);
              && (r == SUCCESS && chain != [] ==>
                    (byteOffsetIntoFile == target <==> position == 0 || old(byteOffsetIntoFile) <= target))
              && (chain != [] && position != 0 && target < old(byteOffsetIntoFile) ==>
                    byteOffsetIntoFile == Boundary(old(place) + 1) && place == old(place))
    {
      hide ClusterOf, BytesOf, FrontFrom, FileOn, EntryOn;
      if currentCluster == 0 {
        HasNoCluster();
        return SUCCESS;
      }
      if position == 0 {
        currentCluster := firstCluster;
        byteOffsetIntoCluster := 0;
        byteOffsetIntoFile := 0;
        place := 0;
        AtStart();
        return SUCCESS;
      }
      SizeIsSmall();
      r := SeekInChain(Min(position, size));
    }

    /** The current cluster of a file that has clusters is one of them. */
    lemma HasNoCluster()
      requires Valid() && currentCluster == 0
      ensures chain == []
    {
    }

    lemma AtStart()
      requires OnChain()
      ensures chain != [] && firstCluster == chain[0] && Boundary(0) == 0 && Boundary(1) <= Boundary(|chain|)
    {
      ProductMonotone(1, |chain|, adapter.layout.bytesPerCluster);
    }

    lemma SizeIsSmall()
      requires OnChain()
      ensures size < 0x1_0000_0000
    {
    }

    /** The loop of `Seek`. */
    method SeekInChain(target: nat) returns (r: ResultCode)
      requires OnChain() && Positioned() && target <= size
      modifies this`currentCluster, this`byteOffsetIntoCluster, this`byteOffsetIntoFile, this`place
      ensures adapter.device.reliable ==> r == SUCCESS
      ensures Positioned() && Front() == old(Front())
      ensures r in {SUCCESS, UNABLE_TO_READ_FAT_TABLE_SECTOR}
      ensures old(byteOffsetIntoFile) <= target ==>
                byteOffsetIntoFile <= target && (r == SUCCESS ==> byteOffsetIntoFile == target)
      ensures target < old(byteOffsetIntoFile) ==> byteOffsetIntoFile == Boundary(place + 1) && place == old(place)
    {
      hide OnChain, FrontFrom, Product;
      SizeIsSmall();
      while true
        invariant Positioned() && Front() == old(Front())
        invariant if old(byteOffsetIntoFile) <= target then byteOffsetIntoFile <= target
                  else byteOffsetIntoFile == old(byteOffsetIntoFile) && place == old(place)
        decreases |chain| - place
      {
        AdvanceInCluster(target);
        if byteOffsetIntoFile >= target {
          break;
        }
        NotAtEnd(target);
        FrontStays(place);
        var atEnd;
        r, atEnd := MoveToNextCluster();
        if r != SUCCESS {
          return;
        }
        if atEnd {
          break;
        }
      }
      return SUCCESS;
    }

    lemma NotAtEnd(target: nat)
      requires OnChain() && Positioned() && byteOffsetIntoFile == Boundary(place + 1) < target <= size
      ensures place + 1 < |chain| && size <= Boundary(|chain|)
    {
    }

    /** Moves to the target or to the end of the current cluster.  The distance to the target wraps
        at 32 bits. */
    method AdvanceInCluster(target: nat)
      requires OnChain() && Positioned() && target < 0x1_0000_0000
      modifies this`byteOffsetIntoCluster, this`byteOffsetIntoFile
      ensures Positioned()
      ensures byteOffsetIntoFile == if target < old(byteOffsetIntoFile) then Boundary(place + 1)
                                    else Min(target, Boundary(place + 1))
      ensures byteOffsetIntoFile < target ==> byteOffsetIntoCluster == adapter.layout.bytesPerCluster
    {
      var left := adapter.layout.bytesPerCluster - byteOffsetIntoCluster;
      var bytesToRead := Min(left, WrappedDifference(target, byteOffsetIntoFile));
      MoveOver(bytesToRead);
    }

    /** Where `SeekEnd` ends: at the end of the file, but at the end of the current cluster when the position is
        past the size already. */
    ghost function AppendStart(): nat
      reads this`size, this`place, this`byteOffsetIntoFile
    {
      if size == 0 then 0 else if byteOffsetIntoFile <= size then size else Boundary(place + 1)
    }

    /** The cluster from which `SeekEnd` starts to move forward. */
    ghost function AppendPlace(): nat
      reads this`size, this`place
    {
      if size == 0 then 0 else place
    }

    /** What an append puts the buffer behind: what the file holds, but all that lies before the end of the current
        cluster when the position is past the size. */
    ghost function AppendBase(): (b: seq<byte>)
      requires Valid()
      reads this, adapter, adapter.device
    {
      if byteOffsetIntoFile <= size || size == 0 then Contents() else Reached()
    }

    lemma AppendBaseIs()
      requires Valid()
      ensures |AppendBase()| == AppendStart()
      ensures byteOffsetIntoFile <= size || size == 0 ==> AppendBase() == Contents()
      ensures !(byteOffsetIntoFile <= size || size == 0) ==> size < AppendStart() && AppendBase() == Reached()
      ensures size <= AppendStart() && AppendBase()[..size] == Contents()
    {
      hide BytesOf, FrontFrom, EntryOn, FileOn;
      ReachedIs();
      if chain != [] {
        FrontReaches();
        if size < byteOffsetIntoFile {
          FrontEndsHere();
        }
      }
    }

    lemma AppendStarts()
      requires Valid() && size != 0
      ensures AppendPlace() == place && RoomFrom(AppendPlace()) == Room()
      ensures AppendStart() == if byteOffsetIntoFile <= size then size else Boundary(place + 1)
    {
    }

    method SeekEnd() returns (r: ResultCode)
      requires Valid()
      modifies this`currentCluster, this`byteOffsetIntoCluster, this`byteOffsetIntoFile, this`place
      ensures adapter.device.reliable ==> r == SUCCESS
      ensures Valid() && Contents() == old(Contents())
      ensures r in {SUCCESS, UNABLE_TO_READ_FAT_TABLE_SECTOR}
      ensures r == SUCCESS ==>
                && byteOffsetIntoFile == old(AppendStart()) && Front() == old(FrontFrom(AppendPlace()))
                && Reached()[..byteOffsetIntoFile] == old(AppendBase())
    {
      hide FrontFrom, FileOn, EntryOn, BytesOf, AppendBase;
      AppendBaseIs();
      ReachedIs();
      if chain != [] {
        SizeIsSmall();
      }
      r := Seek(size);
      ReachedIs();
    }

    // -------------------------------------------------------------- reading

    /** Where reading stops: at the size, but at the end of the current cluster when the position is past the
        size. */
    ghost function ReadLimit(): nat
      reads this`size, this`place, this`byteOffsetIntoFile
    {
      if byteOffsetIntoFile <= size then size else Boundary(place + 1)
    }

    /** What can be read: what the file holds, or, from a position past the size, what its clusters hold up to the
        end of the current one. */
    ghost function Readable(): (b: seq<byte>)
      requires Valid()
      reads this, adapter, adapter.device
      ensures |b| == ReadLimit() && byteOffsetIntoFile <= |b|
      ensures byteOffsetIntoFile <= size ==> b == Contents()
    {
      if chain == [] then [] else Bytes()[..ReadLimit()]
    }

    /** Appends the next bytes of the file to a buffer with the given space.  Whatever happens the
        bytes appended are those the position moves over, and on success there are as many as fit
        and remain. */
    method Read(space: nat) returns (r: ResultCode, appended: seq<byte>)
      requires Valid()
      modifies this`currentCluster, this`byteOffsetIntoCluster, this`byteOffsetIntoFile, this`place
      ensures adapter.device.reliable ==> r == SUCCESS
      ensures Valid() && Contents() == old(Contents()) && Readable() == old(Readable())
      ensures r in {SUCCESS, DEVICE_READ_ERROR, UNABLE_TO_READ_FAT_TABLE_SECTOR}
      ensures byteOffsetIntoFile == old(byteOffsetIntoFile) + |appended|
      ensures appended == Readable()[old(byteOffsetIntoFile)..byteOffsetIntoFile]
      ensures r == SUCCESS ==> |appended| == Min(space, |Readable()| - old(byteOffsetIntoFile))
    {
      hide FileOn, EntryOn, BytesOf;
      if currentCluster == 0 {
        HasNoCluster();
        return SUCCESS, [];
      }
      ghost var start := byteOffsetIntoFile;
      r, appended := ReadClusters(space);
      SliceOfFront(Bytes(), ReadLimit(), start, byteOffsetIntoFile);
    }

    /** Reads one after the other, each into a buffer with the next of the given spaces, as a caller reads a
        file: together they append what one read into all the space would. */
    method ReadInTurn(spaces: seq<nat>) returns (r: ResultCode, appended: seq<byte>)
      requires Valid()
      modifies this`currentCluster, this`byteOffsetIntoCluster, this`byteOffsetIntoFile, this`place
      ensures adapter.device.reliable ==> r == SUCCESS
      ensures Valid() && Contents() == old(Contents()) && Readable() == old(Readable())
      ensures byteOffsetIntoFile == old(byteOffsetIntoFile) + |appended|
      ensures appended == Readable()[old(byteOffsetIntoFile)..byteOffsetIntoFile]
      ensures r == SUCCESS ==> |appended| == Min(Sum(spaces), |Readable()| - old(byteOffsetIntoFile))
    {
      hide *;
      ghost var readable, start := Readable(), byteOffsetIntoFile;
      appended := [];
      NothingReadYet(readable, start, spaces);
      for i := 0 to |spaces|
        invariant Valid() && Contents() == old(Contents()) && Readable() == readable
        invariant start <= byteOffsetIntoFile <= |readable|
        invariant ReadSoFar(readable, start, byteOffsetIntoFile, spaces, i, appended)
      {
        ghost var mid := byteOffsetIntoFile;
        var chunk;
        r, chunk := Read(spaces[i]);
        OneMoreRead(readable, start, mid, byteOffsetIntoFile, spaces, i, appended, chunk, r == SUCCESS);
        appended := appended + chunk;
        if r != SUCCESS {
          return;
        }
      }
      AllRead(readable, start, byteOffsetIntoFile, spaces, appended);
      return SUCCESS, appended;
    }

    /** The loop of `Read`. */
    method ReadClusters(space: nat) returns (r: ResultCode, appended: seq<byte>)
      requires OnChain() && Positioned()
      modifies this`currentCluster, this`byteOffsetIntoCluster, this`byteOffsetIntoFile, this`place
      ensures adapter.device.reliable ==> r == SUCCESS
      ensures Positioned() && ReadLimit() == old(ReadLimit())
      ensures r in {SUCCESS, DEVICE_READ_ERROR, UNABLE_TO_READ_FAT_TABLE_SECTOR}
      ensures byteOffsetIntoFile == old(byteOffsetIntoFile) + |appended| <= ReadLimit() <= |Bytes()|
      ensures appended == Bytes()[old(byteOffsetIntoFile)..byteOffsetIntoFile]
      ensures r == SUCCESS ==> |appended| == Min(space, ReadLimit() - old(byteOffsetIntoFile))
    {
      hide FileOn, EntryOn, BytesOf, Product;
      LimitIsSmall();
      ghost var bytes, start, limit := Bytes(), byteOffsetIntoFile, ReadLimit();
      appended := [];
      while |appended| < space
        invariant Positioned() && start <= byteOffsetIntoFile <= ReadLimit() == limit <= |bytes|
        invariant |appended| <= space && appended == bytes[start..byteOffsetIntoFile]
        decreases limit - byteOffsetIntoFile, |chain| - place
      {
        ghost var mid := byteOffsetIntoFile;
        var chunk, finished;
        r, chunk, finished := ReadTurn(space - |appended|);
        SlicesJoin(bytes, start, mid, byteOffsetIntoFile);
        appended := appended + chunk;
        if r != SUCCESS {
          return;
        }
        if finished {
          break;
        }
      }
      return SUCCESS, appended;
    }

    /** One turn of `Read`: copies out of the current cluster, and moves on when it is used up. */
    method ReadTurn(space: nat) returns (r: ResultCode, chunk: seq<byte>, finished: bool)
      requires OnChain() && Positioned() && 0 < space
      modifies this`currentCluster, this`byteOffsetIntoCluster, this`byteOffsetIntoFile, this`place
      ensures adapter.device.reliable ==> r == SUCCESS
      ensures Positioned() && ReadLimit() == old(ReadLimit())
      ensures r in {SUCCESS, DEVICE_READ_ERROR, UNABLE_TO_READ_FAT_TABLE_SECTOR}
      ensures |chunk| <= space && byteOffsetIntoFile == old(byteOffsetIntoFile) + |chunk| <= ReadLimit() <= |Bytes()|
      ensures chunk == Bytes()[old(byteOffsetIntoFile)..byteOffsetIntoFile]
      ensures r == SUCCESS && finished ==> |chunk| == Min(space, ReadLimit() - old(byteOffsetIntoFile))
      ensures r == SUCCESS && !finished ==> chunk != [] || old(place) < place
    {
      hide FileOn, EntryOn, BytesOf, ClusterOf, FatOf;
      finished := false;
      r, chunk := CopyCurrent(space);
      if r != SUCCESS {
        return;
      }
      MoveOver(|chunk|);
      if byteOffsetIntoFile >= size {
        return SUCCESS, chunk, true;
      }
      if byteOffsetIntoCluster >= adapter.layout.bytesPerCluster {
        r, finished := MoveToNextCluster();
      }
    }

    /** A stretch of the current cluster is a stretch of the file. */
    lemma StretchOfFile(lo: nat, hi: nat)
      requires OnChain() && Positioned() && lo <= hi <= adapter.layout.bytesPerCluster
      ensures adapter.Valid() && adapter.layout.InRange(currentCluster)
      ensures Boundary(place) + hi <= Boundary(|chain|)
      ensures Bytes()[Boundary(place) + lo..Boundary(place) + hi] == adapter.Cluster(currentCluster)[lo..hi]
    {
      StretchOfCluster(adapter.layout, adapter.device.storage, chain, place, lo, hi);
    }

    /** What the current cluster still holds of the file, or as much of it as the space takes.  What is left of
        the file wraps at 32 bits when the position is past the size. */
    method CopyCurrent(space: nat) returns (r: ResultCode, chunk: seq<byte>)
      requires OnChain() && Positioned()
      ensures adapter.device.reliable ==> r == SUCCESS
      ensures r in {SUCCESS, DEVICE_READ_ERROR}
      ensures byteOffsetIntoFile <= ReadLimit() <= |Bytes()|
      ensures |chunk| == if r != SUCCESS then 0 else
                Min(space, Min(adapter.layout.bytesPerCluster - byteOffsetIntoCluster,
                               ReadLimit() - byteOffsetIntoFile))
      ensures byteOffsetIntoFile + |chunk| <= ReadLimit()
      ensures chunk == Bytes()[byteOffsetIntoFile..byteOffsetIntoFile + |chunk|]
    {
      hide OnChain, BytesOf, ClusterOf, Product, FatOf;
      StretchOfFile(0, 0);
      LimitIsSmall();
      var block := adapter.ReadCluster(currentCluster);
      if block.None? {
        return DEVICE_READ_ERROR, [];
      }
      var bytesToRead := Min(adapter.layout.bytesPerCluster - byteOffsetIntoCluster,
                             WrappedDifference(size, byteOffsetIntoFile));
      var bytesAppended := Min(bytesToRead, space);
      chunk := block.value[byteOffsetIntoCluster..byteOffsetIntoCluster + bytesAppended];
      StretchOfFile(byteOffsetIntoCluster, byteOffsetIntoCluster + bytesAppended);
      return SUCCESS, chunk;
    }

    lemma LimitIsSmall()
      requires OnChain() && Positioned()
      ensures size < 0x1_0000_0000 && byteOffsetIntoFile <= Boundary(place + 1) < 0x1_0000_0000
      ensures Boundary(place + 1) == byteOffsetIntoFile + (adapter.layout.bytesPerCluster - byteOffsetIntoCluster)
      ensures byteOffsetIntoFile <= ReadLimit() <= |Bytes()|
    {
    }

    /** Moves the position over bytes of the current cluster. */
    method MoveOver(bytes: nat)
      requires Positioned() && byteOffsetIntoCluster + bytes <= adapter.layout.bytesPerCluster
      modifies this`byteOffsetIntoCluster, this`byteOffsetIntoFile
      ensures Positioned() && byteOffsetIntoFile == old(byteOffsetIntoFile) + bytes
      ensures byteOffsetIntoCluster == old(byteOffsetIntoCluster) + bytes
    {
      byteOffsetIntoFile := byteOffsetIntoFile + bytes;
      byteOffsetIntoCluster := byteOffsetIntoCluster + bytes;
    }

    // -------------------------------------------------------------- writing

    /** Fills the current cluster from the rest of the buffer. */
    method WriteCurrent(blockBuffer: seq<byte>, rest: seq<byte>)
      returns (r: ResultCode, patched: seq<byte>, copied: nat, ghost kept: nat)
      requires OnChain() && Positioned() && |blockBuffer| == adapter.layout.bytesPerCluster
      modifies adapter.device
      ensures adapter.device.reliable ==> r == SUCCESS
      ensures r in {SUCCESS, DEVICE_READ_ERROR, DEVICE_WRITE_ERROR}
      ensures adapter.Valid() && OnChain() && EntryBlock() == old(EntryBlock())
      ensures adapter.Fat() == old(adapter.Fat()) && Room() == old(Room())
      ensures Confined(adapter.layout, old(adapter.device.storage), chain, entryCluster,
                       adapter.device.storage, chain)
      ensures |patched| == adapter.layout.bytesPerCluster
      ensures copied == Min(adapter.layout.bytesPerCluster - byteOffsetIntoCluster, |rest|)
      ensures kept == if 0 < byteOffsetIntoCluster then byteOffsetIntoFile + copied else Boundary(place + 1)
      ensures r != SUCCESS ==> FrontBytes() == old(FrontBytes())
      ensures r == SUCCESS ==> Written(old(FrontBytes()), FrontBytes(), byteOffsetIntoFile, rest[..copied], kept)
      ensures r == SUCCESS ==>
                TurnDone(old(FrontBytes()), adapter.layout.bytesPerCluster, Boundary(place), byteOffsetIntoCluster,
                         rest[..copied], blockBuffer, patched, FrontBytes())
    {
      hide TurnDone, RoomOf, FileOn, Confined, Written, BytesOf, FatOf, FrontFrom, Product, TurnResult, Splice,
           ClusterOf;
      StretchOfFile(0, 0);
      FrontReaches();
      ghost var before, x := adapter.device.storage, [];
      r, patched, copied, x := PatchCluster(adapter, blockBuffer, currentCluster, byteOffsetIntoCluster, rest);
      kept := if 0 < byteOffsetIntoCluster then byteOffsetIntoFile + copied else Boundary(place + 1);
      PatchedFile(adapter.layout, before, adapter.device.storage, chain, firstCluster,
                  entryCluster, entryIndex, size, place);
      if r == SUCCESS {
        PatchedBytes(adapter.layout, before, adapter.device.storage, Front(), place, x, byteOffsetIntoCluster,
                     rest[..copied], byteOffsetIntoFile, kept);
        TurnFromBuffer(old(FrontBytes()), adapter.layout.bytesPerCluster, Boundary(place), byteOffsetIntoCluster,
                       rest[..copied], x, blockBuffer, patched, FrontBytes());
      }
    }

    /** Moves to the next cluster the write needs: the chain's next one while the position is inside the file, a
        new one otherwise, which cuts off what lies behind the current cluster. */
    method NextOrGrow() returns (r: ResultCode, ghost steps: seq<Step>, ghost lost: set<seq<nat>>)
      requires OnChain() && Positioned() && byteOffsetIntoCluster == adapter.layout.bytesPerCluster
      requires byteOffsetIntoFile + adapter.layout.bytesPerCluster < 0x1_0000_0000
      modifies adapter.device, adapter`lastEmptyClusterFound
      modifies this`chain, this`place, this`currentCluster, this`byteOffsetIntoCluster
      ensures adapter.device.reliable ==> r in {SUCCESS, DEVICE_FULL}
      ensures adapter.Valid() && EntryBlock() == old(EntryBlock()) && chain != []
      ensures Onward(adapter.layout, entryCluster, old(adapter.device.storage), old(chain), steps,
                     adapter.device.storage, chain, lost)
      ensures r == SUCCESS || r == DEVICE_FULL || adapter.device.reliable ==> !IsOpen(steps)
      ensures !IsOpen(steps) ==>
                && OnChain() && Positioned() && Room() == old(Room())
                && (r != SUCCESS ==>
                      && place == old(place) && byteOffsetIntoCluster == old(byteOffsetIntoCluster)
                      && FrontBytes() == old(FrontBytes()))
                && WentTo(adapter.layout.bytesPerCluster, old(chain), old(Front()), byteOffsetIntoFile + 1,
                          chain, Front(), lost)
      ensures r == DEVICE_FULL ==> Room() == |Front()| == place + 1
      ensures r == SUCCESS ==>
                && byteOffsetIntoCluster == 0 && place == old(place) + 1 && old(FrontBytes()) <= FrontBytes()
                && (place < old(|Front()|) ==> Front() == old(Front()) && FrontBytes() == old(FrontBytes()))
    {
      hide Onward, IsOpen, RoomOf, OnChain, Confined, BytesOf, FatOf, ClusterOf, FrontFrom, WentTo, Product;
      FrontReaches();
      NotConfined(adapter.layout, adapter.device.storage, chain, entryCluster);
      Filled(adapter.device.storage);
      NotGrown(byteOffsetIntoFile + 1);
      steps, lost := [], {};
      if byteOffsetIntoFile < size {
        FrontStays(place);
        var atEnd;
        r, atEnd := MoveToNextCluster();
      } else {
        r, steps, lost := GrowChain();
      }
    }

    lemma NotGrown(end: nat)
      ensures WentTo(adapter.layout.bytesPerCluster, chain, Front(), end, chain, Front(), {})
    {
    }

    method GrowChain() returns (r: ResultCode, ghost steps: seq<Step>, ghost lost: set<seq<nat>>)
      requires OnChain() && Positioned() && place + 1 == |Front()|
      requires byteOffsetIntoCluster == adapter.layout.bytesPerCluster
      requires byteOffsetIntoFile + adapter.layout.bytesPerCluster < 0x1_0000_0000
      modifies adapter.device, adapter`lastEmptyClusterFound
      modifies this`chain, this`place, this`currentCluster, this`byteOffsetIntoCluster
      ensures adapter.device.reliable ==> r in {SUCCESS, DEVICE_FULL}
      ensures adapter.Valid() && EntryBlock() == old(EntryBlock()) && chain != []
      ensures Onward(adapter.layout, entryCluster, old(adapter.device.storage), old(chain), steps,
                     adapter.device.storage, chain, lost)
      ensures r == SUCCESS || r == DEVICE_FULL || adapter.device.reliable ==> !IsOpen(steps)
      ensures !IsOpen(steps) ==>
                && OnChain() && Positioned() && Room() == old(Room())
                && (r != SUCCESS ==>
                      && place == old(place) && byteOffsetIntoCluster == old(byteOffsetIntoCluster)
                      && FrontBytes() == old(FrontBytes()))
                && WentTo(adapter.layout.bytesPerCluster, old(chain), old(Front()), byteOffsetIntoFile + 1,
                          chain, Front(), lost)
      ensures r == DEVICE_FULL ==> Room() == |Front()| == place + 1
      ensures r == SUCCESS ==>
                byteOffsetIntoCluster == 0 && place == old(place) + 1 && old(FrontBytes()) <= FrontBytes()
    {
      hide *;
      FrontReaches();
      NotGrown(byteOffsetIntoFile + 1);
      ghost var longer;
      var c;
      r, c, steps, longer, lost := LinkBehindCurrent();
      if r == SUCCESS {
        ghost var front, before := Front(), chain;
        MoveToNew(c, longer);
        GrownTo(before, front, c, byteOffsetIntoFile + 1);
      } else if IsOpen(steps) {
        chain := longer;
      }
    }

    /** Links a new cluster behind the current one, which the handle does not follow yet. */
    method LinkBehindCurrent()
      returns (r: ResultCode, c: nat, ghost steps: seq<Step>, ghost longer: seq<nat>, ghost lost: set<seq<nat>>)
      requires OnChain() && Positioned() && place + 1 == |Front()|
      requires byteOffsetIntoCluster == adapter.layout.bytesPerCluster
      requires byteOffsetIntoFile + adapter.layout.bytesPerCluster < 0x1_0000_0000
      modifies adapter.device, adapter`lastEmptyClusterFound
      ensures adapter.device.reliable ==> r in {SUCCESS, DEVICE_FULL}
      ensures adapter.Valid() && EntryBlock() == old(EntryBlock()) && longer != []
      ensures Onward(adapter.layout, entryCluster, old(adapter.device.storage), chain, steps,
                     adapter.device.storage, longer, lost)
      ensures r == SUCCESS || r == DEVICE_FULL || adapter.device.reliable ==> !IsOpen(steps)
      ensures r != SUCCESS && !IsOpen(steps) ==>
                && OnChain() && FrontBytes() == old(FrontBytes()) && longer == chain && lost == {}
                && Room() == old(Room()) && (r == DEVICE_FULL ==> Room() == |Front()|)
      ensures r == SUCCESS ==>
                && longer == Front() + [c] && lost == Behind(chain, |Front()|)
                && RoomOf(longer, adapter.Fat(), adapter.SearchStart()) == old(Room())
                && FileOn(adapter.layout, adapter.device.storage, longer, firstCluster, entryCluster, entryIndex, size)
                && (forall j :: 0 <= j < |longer| ==> adapter.layout.InRange(longer[j]))
                && old(FrontBytes()) <= BytesOf(adapter.layout, adapter.device.storage, longer)
    {
      hide *;
      FrontReaches();
      FrontIsOn();
      ghost var before, start := adapter.device.storage, adapter.SearchStart();
      r, c, steps := LinkNewCluster(adapter, currentCluster, chain, place);
      longer, lost := chain, {};
      if steps == [] {
        NothingLinked(before, start, steps, r == DEVICE_FULL);
      } else if r != SUCCESS {
        longer, lost := Front(), Behind(chain, place + 1);
        LinkedOpen(before, c, r, steps);
      } else {
        longer, lost := Front() + [c], Behind(chain, place + 1);
        LinkedAndMarked(before, c, r, steps);
        RoomKept(before, start, c);
      }
    }

    lemma FrontIsOn()
      requires OnChain() && Positioned()
      ensures adapter.Valid() && size <= Boundary(|chain|) && chain[place] == currentCluster
      ensures chain[place] < adapter.layout.maximumCluster
      ensures FileOn(adapter.layout, adapter.device.storage, chain, firstCluster, entryCluster, entryIndex, size)
      ensures FrontBytes() == BytesOf(adapter.layout, adapter.device.storage, Front())
      ensures Room() == RoomOf(Front(), FatOf(adapter.layout, adapter.device.storage), adapter.SearchStart())
      ensures adapter.layout.InRange(entryCluster)
      ensures EntryBlock() == ClusterOf(adapter.layout, adapter.device.storage, entryCluster)
      ensures Boundary(place + 1) == Product(place + 1, adapter.layout.bytesPerCluster)
      ensures Product(place + 2, adapter.layout.bytesPerCluster)
              == Boundary(place + 1) + adapter.layout.bytesPerCluster
    {
      hide FrontFrom, BytesOf, FileOn, RoomOf;
      FrontReaches();
      assert adapter.layout.bytesPerCluster + Product(place + 1, adapter.layout.bytesPerCluster)
          == Product(place + 2, adapter.layout.bytesPerCluster);
    }

    /** What a link behind the current cluster leaves that has not been written. */
    lemma NothingLinked(before: seq<byte>, start: nat, steps: seq<Step>, full: bool)
      requires adapter.Valid() && adapter.device.storage == before && steps == []
      requires FileOn(adapter.layout, before, chain, firstCluster, entryCluster, entryIndex, size)
      requires size <= Boundary(|chain|) && place + 1 == |Front()| <= |chain| && Front() == chain[..place + 1]
      requires full ==> forall d :: chain[place] < d < adapter.layout.maximumCluster ==> adapter.Fat()[d] != EntryFree
      ensures OnChain() && FrontBytes() == BytesOf(adapter.layout, before, Front())
      ensures Room() == RoomOf(Front(), FatOf(adapter.layout, before), start) && (full ==> Room() == |Front()|)
      ensures Onward(adapter.layout, entryCluster, before, chain, steps, adapter.device.storage, chain, {})
      ensures adapter.layout.InRange(entryCluster)
      ensures EntryBlock() == ClusterOf(adapter.layout, before, entryCluster)
    {
      hide RoomOf, BytesOf, ClusterOf, FrontFrom, Onward, IsChain, Confined;
      EntryOfFile(adapter.layout, before, chain, firstCluster, entryCluster, entryIndex, size);
      RoomBehindLast(Front(), FatOf(adapter.layout, before), start, adapter.SearchStart());
      if full {
        assert |adapter.Fat()| == adapter.layout.maximumCluster;
        NoRoomLeft(Front(), adapter.Fat(), start);
      }
      NotConfined(adapter.layout, before, chain, entryCluster);
      Filled(before);
    }

    /** That has been written but not marked. */
    lemma LinkedOpen(before: seq<byte>, c: nat, r: ResultCode, steps: seq<Step>)
      requires adapter.Valid() && place + 1 == |Front()| <= |chain| && Front() == chain[..place + 1]
      requires FileOn(adapter.layout, before, chain, firstCluster, entryCluster, entryIndex, size)
      requires r != SUCCESS && steps != [] && adapter.Fat() == FatOf(adapter.layout, before)[chain[place] := c]
      requires forall d :: adapter.layout.InRange(d) ==>
                 ClusterOf(adapter.layout, adapter.device.storage, d) == ClusterOf(adapter.layout, before, d)
      requires Leads(FatOf(adapter.layout, before), Owned(chain), steps, adapter.Fat(),
                     Owned(Relinked(chain, place, c, r, steps)) + CutOff(chain, place, steps))
      requires Owned(Relinked(chain, place, c, r, steps)) !! CutOff(chain, place, steps)
      ensures Onward(adapter.layout, entryCluster, before, chain, steps, adapter.device.storage, Front(),
                     Behind(chain, place + 1))
      ensures adapter.layout.InRange(entryCluster)
      ensures EntryBlock() == ClusterOf(adapter.layout, before, entryCluster)
    {
      hide Leads, ClusterOf, FrontFrom, Owned, Onward, Behind;
      OpenOnward(adapter.layout, before, adapter.device.storage, chain, entryCluster, place, c, steps);
    }

    /** That has been written and marked. */
    lemma LinkedAndMarked(before: seq<byte>, c: nat, r: ResultCode, steps: seq<Step>)
      requires adapter.Valid() && place + 1 == |Front()| <= |chain| && Front() == chain[..place + 1]
      requires FileOn(adapter.layout, before, chain, firstCluster, entryCluster, entryIndex, size)
      requires r == SUCCESS && steps != [] && IsFree(FatOf(adapter.layout, before), c)
      requires chain[place] < adapter.layout.maximumCluster
      requires adapter.Fat() == Extended(FatOf(adapter.layout, before), chain[place], c)
      requires Product(place + 2, adapter.layout.bytesPerCluster) < 0x1_0000_0000
      requires forall d :: adapter.layout.InRange(d) ==>
                 ClusterOf(adapter.layout, adapter.device.storage, d) == ClusterOf(adapter.layout, before, d)
      requires Leads(FatOf(adapter.layout, before), Owned(chain), steps, adapter.Fat(),
                     Owned(Relinked(chain, place, c, r, steps)) + CutOff(chain, place, steps))
      requires Owned(Relinked(chain, place, c, r, steps)) !! CutOff(chain, place, steps)
      ensures Onward(adapter.layout, entryCluster, before, chain, steps, adapter.device.storage, Front() + [c],
                     Behind(chain, place + 1))
      ensures FileOn(adapter.layout, adapter.device.storage, Front() + [c], firstCluster, entryCluster, entryIndex,
                     size)
      ensures var longer, front := Front() + [c], Front();
              && (forall j :: 0 <= j < |longer| ==> adapter.layout.InRange(longer[j]))
              && (forall j :: 0 <= j < |front| ==> adapter.layout.InRange(front[j]))
              && BytesOf(adapter.layout, before, front) <= BytesOf(adapter.layout, adapter.device.storage, longer)
      ensures adapter.layout.InRange(entryCluster)
      ensures EntryBlock() == ClusterOf(adapter.layout, before, entryCluster)
    {
      hide Leads, BytesOf, ClusterOf, FrontFrom, Owned, Onward, Behind, Product, Extended, IsFree, FatOf, FileOn;
      EntryClusterInRange(adapter.layout, before, chain, firstCluster, entryCluster, entryIndex, size);
      GrownOnward(adapter.layout, before, adapter.device.storage, chain, firstCluster,
                  entryCluster, entryIndex, size, place, c, steps);
      assert forall j :: 0 <= j < |Front()| ==> Front()[j] == (Front() + [c])[j];
    }

    lemma RoomKept(before: seq<byte>, start: nat, c: nat)
      requires adapter.Valid() && adapter.layout.FitsOn(before) && place + 1 == |Front()| <= |chain|
      requires Front() == chain[..place + 1] && IsFree(FatOf(adapter.layout, before), c) && chain[place] < c
      requires forall d :: chain[place] < d < c ==> FatOf(adapter.layout, before)[d] != EntryFree
      requires adapter.Fat() == Extended(FatOf(adapter.layout, before), chain[place], c)
      ensures RoomOf(Front() + [c], adapter.Fat(), adapter.SearchStart())
              == RoomOf(Front(), FatOf(adapter.layout, before), start)
    {
      hide RoomOf, FrontFrom, FatOf;
      GrownRoom(Front(), FatOf(adapter.layout, before), adapter.Fat(), c, start, adapter.SearchStart());
    }

    /** Moves to the new cluster. */
    method MoveToNew(c: nat, ghost longer: seq<nat>)
      requires Positioned() && longer == chain[..place + 1] + [c]
      requires byteOffsetIntoCluster == adapter.layout.bytesPerCluster
      modifies this`chain, this`place, this`currentCluster, this`byteOffsetIntoCluster
      ensures chain == longer && place == old(place) + 1 == |chain| - 1 && byteOffsetIntoCluster == 0
      ensures Positioned()
    {
      chain, place := longer, place + 1;
      currentCluster := c;
      byteOffsetIntoCluster := 0;
    }

    /** A write that has got to its end or filled all it could get has lost clusters exactly if it has grown the
        file and the chain went on behind the front. */
    lemma LossDecided(c0: seq<nat>, f0: seq<nat>, end: nat, c1: seq<nat>, f1: seq<nat>, lost: set<seq<nat>>,
                      room: nat, r: ResultCode)
      requires WentTo(adapter.layout.bytesPerCluster, c0, f0, end, c1, f1, lost)
      requires f0 <= c0 && f1 <= c1 && |f1| <= room
      requires r == SUCCESS ==> end <= Boundary(|f1|)
      requires r == DEVICE_FULL ==> |f1| == room
      ensures r in {SUCCESS, DEVICE_FULL} ==> (lost == {} <==> !(|f0| < |c0| && Boundary(|f0|) < end && |f0| < room))
      ensures r in {SUCCESS, DEVICE_FULL} && lost == {} ==> c0 <= c1
      ensures r == DEVICE_FULL ==> if |f0| < room then f1 == c1 else c1 == c0
    {
      hide Product;
      assert |f0| < |c0| ==> c0[|f0|..] in Behind(c0, |f0|);
    }

    /** Once the file has grown, its front is the whole chain. */
    lemma GrownTo(before: seq<nat>, front: seq<nat>, c: nat, end: nat)
      requires adapter.Valid() && chain == front + [c] && place == |front| && size <= Boundary(|front|) < end
      requires FileOn(adapter.layout, adapter.device.storage, chain, firstCluster, entryCluster, entryIndex, size)
      ensures OnChain() && Front() == chain
      ensures FrontBytes() == BytesOf(adapter.layout, adapter.device.storage, chain)
      ensures Room() == RoomOf(chain, adapter.Fat(), adapter.SearchStart())
      ensures WentTo(adapter.layout.bytesPerCluster, before, front, end, chain, Front(), Behind(before, |front|))
    {
      hide BytesOf, Behind, RoomOf;
    }

    /** A write that has changed no entry of the FAT is a way onward without steps. */
    lemma Filled(s0: seq<byte>)
      requires adapter.Valid() && adapter.layout.FitsOn(s0) && adapter.Fat() == FatOf(adapter.layout, s0)
      requires chain != [] ==> IsChain(adapter.Fat(), chain)
      requires Confined(adapter.layout, s0, chain, entryCluster, adapter.device.storage, chain)
      ensures Onward(adapter.layout, entryCluster, s0, chain, [], adapter.device.storage, chain, {}) && !IsOpen([])
    {
      hide Confined, IsChain;
      NotLinked(adapter.Fat(), chain);
      OneChainWellFormed(adapter.Fat(), chain);
    }


    /** Fills the current cluster and moves the position over what went into it. */
    method FillCurrent(blockBuffer: seq<byte>, rest: seq<byte>)
      returns (r: ResultCode, patched: seq<byte>, copied: nat, ghost kept: nat)
      requires OnChain() && Positioned() && |blockBuffer| == adapter.layout.bytesPerCluster
      modifies adapter.device, this`byteOffsetIntoCluster, this`byteOffsetIntoFile
      ensures adapter.device.reliable ==> r == SUCCESS
      ensures r in {SUCCESS, DEVICE_READ_ERROR, DEVICE_WRITE_ERROR}
      ensures adapter.Valid() && OnChain() && Positioned() && EntryBlock() == old(EntryBlock())
      ensures Room() == old(Room())
      ensures Onward(adapter.layout, entryCluster, old(adapter.device.storage), chain, [],
                     adapter.device.storage, chain, {})
      ensures |patched| == adapter.layout.bytesPerCluster && copied <= |rest|
      ensures byteOffsetIntoFile == old(byteOffsetIntoFile) + copied && (r != SUCCESS ==> copied == 0)
      ensures Written(old(FrontBytes()), FrontBytes(), old(byteOffsetIntoFile), rest[..copied], kept)
      ensures copied < |rest| ==> kept == byteOffsetIntoFile
      ensures r == SUCCESS ==>
                && copied == Min(adapter.layout.bytesPerCluster - old(byteOffsetIntoCluster), |rest|)
                && byteOffsetIntoCluster == old(byteOffsetIntoCluster) + copied
                && (copied < |rest| ==> byteOffsetIntoCluster == adapter.layout.bytesPerCluster)
                && (copied == 0 && rest != [] ==> 0 < old(byteOffsetIntoCluster))
                && kept == (if 0 < old(byteOffsetIntoCluster) then byteOffsetIntoFile else Boundary(place + 1))
                && kept <= Boundary(place + 1)
                && TurnDone(old(FrontBytes()), adapter.layout.bytesPerCluster, Boundary(place),
                            old(byteOffsetIntoCluster), rest[..copied], blockBuffer, patched, FrontBytes())
    {
      hide Written, TurnDone, Confined, OnChain, Onward, FrontFrom, RoomOf, FatOf, BytesOf, IsOpen;
      FrontReaches();
      ghost var s0 := adapter.device.storage;
      r, patched, copied, kept := WriteCurrent(blockBuffer, rest);
      Filled(s0);
      if r == SUCCESS {
        MoveOver(copied);
        FrontReaches();
      } else {
        copied, kept := 0, byteOffsetIntoFile;
        NothingWritten(FrontBytes(), byteOffsetIntoFile);
        assert rest[..0] == [];
      }
    }

    ghost function Now(): (m: Moment)
      requires OnChain()
      reads this, adapter, adapter.device
    {
      Moment(adapter.device.storage, chain, Front(), FrontBytes(), place, byteOffsetIntoCluster, byteOffsetIntoFile,
             Room(), EntryBlock())
    }

    /** One turn of `Write`. */
    method WriteTurn(blockBuffer: seq<byte>, rest: seq<byte>)
      returns (r: ResultCode, patched: seq<byte>, copied: nat, ghost kept: nat, ghost steps: seq<Step>,
               ghost lost: set<seq<nat>>)
      requires OnChain() && Positioned() && |blockBuffer| == adapter.layout.bytesPerCluster && rest != []
      requires byteOffsetIntoFile + |rest| + adapter.layout.bytesPerCluster < 0x1_0000_0000
      modifies adapter.device, adapter`lastEmptyClusterFound, this`chain, this`place
      modifies this`currentCluster, this`byteOffsetIntoCluster, this`byteOffsetIntoFile
      ensures adapter.device.reliable ==> r in {SUCCESS, DEVICE_FULL}
      ensures adapter.Valid() && |patched| == adapter.layout.bytesPerCluster && EntryBlock() == old(EntryBlock())
      ensures chain != []
      ensures Onward(adapter.layout, entryCluster, old(adapter.device.storage), old(chain), steps,
                     adapter.device.storage, chain, lost)
      ensures r == SUCCESS || r == DEVICE_FULL || adapter.device.reliable ==> !IsOpen(steps)
      ensures byteOffsetIntoFile == old(byteOffsetIntoFile) + copied && copied <= |rest|
      ensures !IsOpen(steps) ==>
                && OnChain() && Positioned()
                && TurnMade(adapter.layout, entryCluster, old(Now()), Now(), rest, copied, kept, steps, lost)
      ensures r != SUCCESS ==> copied < |rest|
      ensures r == DEVICE_FULL ==>
                && Room() == |Front()| == place + 1
                && byteOffsetIntoCluster == adapter.layout.bytesPerCluster
      ensures r == SUCCESS ==>
                && TurnWhole(adapter.layout.bytesPerCluster, old(Now()), Now(), rest, copied, kept, blockBuffer,
                             patched)
                && (copied == 0 ==> 0 < old(byteOffsetIntoCluster) && byteOffsetIntoCluster == 0)
    {
      hide *;
      ghost var m0, end := Now(), byteOffsetIntoFile + |rest|;
      NowIs();
      r, patched, copied, kept := FillCurrent(blockBuffer, rest);
      steps, lost := [], {};
      ValidHere();
      FrontReaches();
      NotGrown(end);
      NotLinked(adapter.Fat(), chain);
      if r == SUCCESS && copied < |rest| {
        ghost var storage, now, bytes, front := adapter.device.storage, chain, FrontBytes(), Front();
        ghost var more, lostNow;
        r, more, lostNow := NextOrGrow();
        OnwardOn(adapter.layout, entryCluster, m0.storage, now, steps, storage, now, lost, more, adapter.device.storage,
                 chain, lostNow);
        if !IsOpen(more) {
          WentFurther(adapter.layout.bytesPerCluster, now, front, byteOffsetIntoFile + 1, chain, Front(), lostNow, end);
          WrittenThenGrown(m0.bytes, bytes, FrontBytes(), m0.at, rest[..copied], kept);
        }
        steps, lost := steps + more, lost + lostNow;
      }
      if !IsOpen(steps) {
        NowIs();
        TurnIsMade(adapter.layout, entryCluster, m0, Now(), rest, copied, kept, steps, lost);
        if r == SUCCESS {
          BoundaryIs(m0.place);
          BoundaryIs(place + 1);
          TurnIsWhole(adapter.layout.bytesPerCluster, m0, Now(), rest, copied, kept, blockBuffer, patched);
        }
      }
    }

    /** The write gets to the last cluster of the front at most. */
    lemma WriteStays(buffer: seq<byte>)
      requires OnChain() && Positioned() && byteOffsetIntoFile + |buffer| <= Boundary(|Front()|)
      ensures 0 < adapter.layout.bytesPerCluster && byteOffsetIntoCluster <= adapter.layout.bytesPerCluster
      ensures byteOffsetIntoCluster <= byteOffsetIntoFile
      ensures byteOffsetIntoFile - byteOffsetIntoCluster
              + Reach(adapter.layout.bytesPerCluster, byteOffsetIntoCluster, |buffer|) <= |FrontBytes()|
    {
      FrontReaches();
      ReachFits(adapter.layout.bytesPerCluster, place, |Front()|, byteOffsetIntoCluster, |buffer|);
    }

    lemma UnderwayHere(buffer: seq<byte>, stack: seq<byte>)
      requires OnChain() && Positioned() && |stack| == adapter.layout.bytesPerCluster
      ensures Underway(adapter.layout, entryCluster, Now(), Now(), buffer, stack, 0, byteOffsetIntoFile, stack, [], {})
    {
      hide *;
      FrontReaches();
      NowIs();
      NotConfined(adapter.layout, adapter.device.storage, chain, entryCluster);
      Filled(adapter.device.storage);
      InsideIs(adapter.layout.bytesPerCluster, Now(), buffer);
      BoundaryIs(|Front()|);
      BoundaryIs(place + 1);
      if Inside(adapter.layout.bytesPerCluster, Now(), buffer) {
        WriteStays(buffer);
      }
      UnderwayAtStart(adapter.layout, entryCluster, Now(), buffer, stack);
    }

    /** As long as the write stays inside the front, a turn that is not the last has a cluster to move on to. */
    lemma TurnFits(l: Layout, m0: Moment, buffer: seq<byte>, stack: seq<byte>, done: nat, kept: nat, x: seq<byte>,
                   steps: seq<Step>, lost: set<seq<nat>>)
      requires OnChain() && Positioned() && l == adapter.layout && done < |buffer|
      requires Underway(l, entryCluster, m0, Now(), buffer, stack, done, kept, x, steps, lost)
      ensures Now().off <= l.bytesPerCluster
      ensures Now().at == Product(Now().place, l.bytesPerCluster) + Now().off && Now().at == m0.at + done
      ensures Inside(l.bytesPerCluster, m0, buffer) ==>
                && Now().place < |Now().front|
                && (Min(l.bytesPerCluster - Now().off, |buffer| - done) < |buffer| - done ==>
                      Now().place + 1 < |Now().front|)
    {
      hide OnChain, FrontFrom, Onward, IsOpen, WentTo, SoFar, KeptAtOnce, Room, EntryBlock, FrontBytes;
      FrontReaches();
    }

    /** The loop of `Write`.  From `kept` on the bytes are as they were. */
    method WriteAll(stack: seq<byte>, buffer: seq<byte>)
      returns (r: ResultCode, ghost kept: nat, ghost steps: seq<Step>, ghost lost: set<seq<nat>>)
      requires OnChain() && Positioned() && |stack| == adapter.layout.bytesPerCluster
      requires byteOffsetIntoFile + |buffer| + adapter.layout.bytesPerCluster < 0x1_0000_0000
      modifies adapter.device, adapter`lastEmptyClusterFound, this`chain, this`place
      modifies this`currentCluster, this`byteOffsetIntoCluster, this`byteOffsetIntoFile
      ensures adapter.device.reliable ==> r in {SUCCESS, DEVICE_FULL}
      ensures adapter.Valid() && EntryBlock() == old(EntryBlock()) && chain != []
      ensures Onward(adapter.layout, entryCluster, old(adapter.device.storage), old(chain), steps,
                     adapter.device.storage, chain, lost)
      ensures r == SUCCESS || r == DEVICE_FULL || adapter.device.reliable ==> !IsOpen(steps)
      ensures old(byteOffsetIntoFile) <= byteOffsetIntoFile <= old(byteOffsetIntoFile) + |buffer|
      ensures r != SUCCESS ==> byteOffsetIntoFile < old(byteOffsetIntoFile) + |buffer|
      ensures !IsOpen(steps) ==>
                && OnChain() && Positioned()
                && TurnMade(adapter.layout, entryCluster, old(Now()), Now(), buffer,
                            byteOffsetIntoFile - old(byteOffsetIntoFile), kept, steps, lost)
      ensures r == DEVICE_FULL ==>
                && Room() == |Front()| == place + 1
                && byteOffsetIntoCluster == adapter.layout.bytesPerCluster
      ensures r == SUCCESS ==>
                && byteOffsetIntoFile == old(byteOffsetIntoFile) + |buffer|
                && (Inside(adapter.layout.bytesPerCluster, old(Now()), buffer) ==>
                      ResultIs(old(FrontBytes()), adapter.layout.bytesPerCluster, old(byteOffsetIntoFile),
                               old(byteOffsetIntoCluster), buffer, stack, FrontBytes()))
                && kept <= Boundary(place + 1)
                && (place == old(place) && 0 < old(byteOffsetIntoCluster) ==> kept == byteOffsetIntoFile)
    {
      hide *;
      var blockBuffer := stack;
      ghost var l, m0 := adapter.layout, Now();
      var done := 0;
      r, kept, steps, lost := SUCCESS, byteOffsetIntoFile, [], {};
      ValidHere();
      UnderwayHere(buffer, stack);
      NowIs();
      while done < |buffer|
        invariant adapter.Valid() && OnChain() && Positioned() && chain != [] && r == SUCCESS
        invariant |blockBuffer| == l.bytesPerCluster && done <= |buffer| && byteOffsetIntoFile == m0.at + done
        invariant EntryBlock() == m0.entry
        invariant Underway(l, entryCluster, m0, Now(), buffer, stack, done, kept, blockBuffer, steps, lost)
        decreases |buffer| - done, byteOffsetIntoCluster
      {
        ghost var m, x := Now(), blockBuffer;
        TurnFits(l, m0, buffer, stack, done, kept, x, steps, lost);
        NowIs();
        var copied;
        ghost var keptNow, more, lostNow;
        r, blockBuffer, copied, keptNow, more, lostNow := WriteTurn(blockBuffer, buffer[done..]);
        if r != SUCCESS {
          if IsOpen(more) {
            UnderwayOpens(l, entryCluster, m0, m, buffer, stack, done, kept, x, steps, lost, more,
                          adapter.device.storage, chain, lostNow);
          } else {
            UnderwayStops(l, entryCluster, m0, m, Now(), buffer, stack, done, kept, x, steps, lost,
                          copied, keptNow, more, lostNow);
            TurnIs(l, m0, buffer, done + copied, keptNow, steps + more, lost + lostNow);
          }
          kept, steps, lost := keptNow, steps + more, lost + lostNow;
          return;
        }
        UnderwayByTurn(l, entryCluster, m0, m, Now(), buffer, stack, done, kept, x, steps, lost,
                       copied, keptNow, blockBuffer, more, lostNow);
        done, kept, steps, lost := done + copied, keptNow, steps + more, lost + lostNow;
      }
      UnderwayEnds(l, entryCluster, m0, Now(), buffer, stack, kept, blockBuffer, steps, lost);
      TurnIs(l, m0, buffer, done, kept, steps, lost);
      NowIs();
      BoundaryIs(place + 1);
    }

    lemma BoundaryIs(i: nat)
      ensures Boundary(i) == Product(i, adapter.layout.bytesPerCluster)
    {
    }

    lemma NowIs()
      requires OnChain()
      ensures adapter.Valid() && Now().storage == adapter.device.storage && Now().chain == chain
      ensures Now().front == Front() && Now().bytes == FrontBytes() && Now().room == Room()
      ensures Now().place == place && Now().off == byteOffsetIntoCluster && Now().at == byteOffsetIntoFile
      ensures Now().entry == EntryBlock()
    {
    }

    lemma TurnIs(l: Layout, m0: Moment, buffer: seq<byte>, done: nat, kept: nat, steps: seq<Step>, lost: set<seq<nat>>)
      requires OnChain() && TurnMade(l, entryCluster, m0, Now(), buffer, done, kept, steps, lost)
      ensures Onward(l, entryCluster, m0.storage, m0.chain, steps, adapter.device.storage, chain, lost)
      ensures !IsOpen(steps) && EntryBlock() == m0.entry && Room() == m0.room
      ensures WentTo(l.bytesPerCluster, m0.chain, m0.front, m0.at + |buffer|, chain, Front(), lost)
      ensures done <= |buffer| && byteOffsetIntoFile == m0.at + done
      ensures Written(m0.bytes, FrontBytes(), m0.at, buffer[..done], kept)
      ensures done < |buffer| ==> kept == byteOffsetIntoFile
    {
      hide Onward, IsOpen, WentTo, Written, FrontFrom, RoomOf, BytesOf;
    }

    /** The first cluster of an empty file, which its entry names from then on. */
    method TakeFirstCluster() returns (r: ResultCode, ghost steps: seq<Step>, ghost lost: set<seq<nat>>)
      requires EntryAgrees() && chain == [] && firstCluster == 0 && size == 0 && place == 0
      requires byteOffsetIntoCluster == 0 && byteOffsetIntoFile == 0
      requires adapter.layout.bytesPerCluster < 0x1_0000_0000
      modifies adapter.device, adapter`lastEmptyClusterFound
      modifies this`chain, this`firstCluster, this`currentCluster
      ensures adapter.device.reliable ==> r in {SUCCESS, DEVICE_FULL}
      ensures adapter.Valid()
      ensures Onward(adapter.layout, entryCluster, old(adapter.device.storage), [], steps,
                     adapter.device.storage, chain, lost)
      ensures !IsOpen(steps) && (r == SUCCESS || r == DEVICE_FULL || adapter.device.reliable ==> lost == {})
      ensures r == DEVICE_FULL ==> Room() == old(Room()) == 0
      ensures r != SUCCESS ==>
                && EntryAgrees() && chain == [] && firstCluster == 0 && currentCluster == old(currentCluster)
                && EntryBlock() == old(EntryBlock())
      ensures r == SUCCESS ==>
                && OnChain() && Positioned() && chain == [firstCluster] == Front() && Room() == old(Room())
                && HasEntry(old(EntryBlock()), entryIndex) && firstCluster < 0x1_0000_0000
                && EntryBlock() == WithFirstCluster(old(EntryBlock()), entryIndex, firstCluster)
    {
      hide *;
      var c;
      r, c, steps, lost := TakeNamedCluster();
      if r == SUCCESS {
        StartAt(c);
        assert chain == [] + [c];
        GrownTo([], [], c, 1);
      }
    }

    /** Takes a free cluster and names it in the entry; the handle does not follow yet.  If the entry cannot be
        written the cluster is lost. */
    method TakeNamedCluster() returns (r: ResultCode, c: nat, ghost steps: seq<Step>, ghost lost: set<seq<nat>>)
      requires EntryAgrees() && chain == [] && firstCluster == 0 && size == 0
      requires adapter.layout.bytesPerCluster < 0x1_0000_0000
      modifies adapter.device, adapter`lastEmptyClusterFound
      ensures adapter.device.reliable ==> r in {SUCCESS, DEVICE_FULL}
      ensures adapter.Valid() && size == Boundary(0)
      ensures Onward(adapter.layout, entryCluster, old(adapter.device.storage), [], steps,
                     adapter.device.storage, if r == SUCCESS then [c] else [], lost)
      ensures !IsOpen(steps) && (r == SUCCESS || r == DEVICE_FULL || adapter.device.reliable ==> lost == {})
      ensures r == DEVICE_FULL ==> Room() == old(Room()) == 0
      ensures r != SUCCESS ==> EntryAgrees() && EntryBlock() == old(EntryBlock())
      ensures r == SUCCESS ==>
                && RoomOf([c], adapter.Fat(), adapter.SearchStart()) == old(Room())
                && FileOn(adapter.layout, adapter.device.storage, [c], c, entryCluster, entryIndex, 0)
                && HasEntry(old(EntryBlock()), entryIndex) && c < 0x1_0000_0000
                && EntryBlock() == WithFirstCluster(old(EntryBlock()), entryIndex, c)
    {
      hide Leads, IsOpen, RoomOf, BytesOf, ClusterOf, FatOf, FileOn, IsChain, Owned, WellFormed, FrontFrom, Confined;
      c, lost := 0, {};
      ghost var s0 := adapter.device.storage;
      EmptyOwnsNothing(FatOf(adapter.layout, s0));
      r, c, steps := TakeNewCluster(adapter);
      EntryKept(adapter.layout, s0, adapter.device.storage, entryCluster, entryIndex, c);
      TakenConfined(adapter.layout, s0, adapter.device.storage, entryCluster, c);
      if r != SUCCESS {
        if r == DEVICE_FULL {
          NoRoomLeft([], adapter.Fat(), adapter.SearchStart());
        }
        return;
      }
      ghost var s1 := adapter.device.storage;
      StartedRoom(FatOf(adapter.layout, s0), adapter.Fat(), c, old(adapter.SearchStart()), adapter.SearchStart());
      r := SetDirectoryEntryFirstCluster(adapter, entryCluster, entryIndex, c);
      if r != SUCCESS {
        lost := Owned([c]);
        assert Owned([]) + lost == lost;
        return;
      }
      assert Owned([c]) + lost == Owned([c]);
      StartedFile(adapter.layout, s0, s1, adapter.device.storage, entryCluster, entryIndex, c);
    }

    method StartAt(c: nat)
      requires byteOffsetIntoCluster == 0 && byteOffsetIntoFile == 0 && place == 0
      modifies this`chain, this`firstCluster, this`currentCluster
      ensures chain == [c] && firstCluster == c && Positioned()
    {
      firstCluster := c;
      currentCluster := c;
      chain := [c];
    }

    /** Brings the size up to date, in the handle and on the disk.  The front stays where it is. */
    method UpdateSize() returns (r: ResultCode)
      requires OnChain() && Positioned()
      modifies adapter.device, this`size
      ensures adapter.device.reliable ==> r == SUCCESS
      ensures r in {SUCCESS, DEVICE_READ_ERROR, DEVICE_WRITE_ERROR}
      ensures adapter.Valid() && Room() == old(Room()) && Front() == old(Front())
      ensures Onward(adapter.layout, entryCluster, old(adapter.device.storage), chain, [],
                     adapter.device.storage, chain, {})
      ensures size == (if old(size) < byteOffsetIntoFile then byteOffsetIntoFile else old(size)) < 0x1_0000_0000
      ensures HasEntry(old(EntryBlock()), entryIndex)
      ensures EntryBlock() == UpdatedEntry(old(EntryBlock()), entryIndex, false, 0,
                                           r == SUCCESS && old(size) < byteOffsetIntoFile, size)
      ensures r != SUCCESS ==> old(size) < size
      ensures r == SUCCESS ==> OnChain() && Positioned() && FrontBytes() == old(FrontBytes())
    {
      hide RoomOf, FatOf, Confined, FileOn, BytesOf, Onward, FrontFrom, ClusterOf, IsOpen, WithSize, Product;
      FrontReaches();
      SizeIsSmall();
      NotConfined(adapter.layout, adapter.device.storage, chain, entryCluster);
      Filled(adapter.device.storage);
      r := SUCCESS;
      if byteOffsetIntoFile > size {
        ghost var s0, shorter := adapter.device.storage, size;
        FrontEndsHere();
        size := byteOffsetIntoFile;
        FrontEndsHere();
        r := UpdateDirectoryEntrySize(adapter, entryCluster, entryIndex, byteOffsetIntoFile);
        EntryTouched(adapter.layout, s0, adapter.device.storage, chain, entryCluster);
        Filled(s0);
        if r == SUCCESS {
          ResizedFile(adapter.layout, s0, adapter.device.storage, chain, firstCluster,
                      entryCluster, entryIndex, shorter, size);
          SameBytes(adapter.layout, s0, adapter.device.storage, Front());
        }
      }
    }

    /** Sees to it that the file has a cluster. */
    method EnsureFirstCluster() returns (r: ResultCode, ghost steps: seq<Step>, ghost lost: set<seq<nat>>)
      requires Valid() && adapter.layout.bytesPerCluster < 0x1_0000_0000
      modifies adapter.device, adapter`lastEmptyClusterFound
      modifies this`chain, this`firstCluster, this`currentCluster
      ensures adapter.device.reliable ==> r in {SUCCESS, DEVICE_FULL}
      ensures adapter.Valid() && HasEntry(old(EntryBlock()), entryIndex) && Valid() && Contents() == old(Contents())
      ensures Onward(adapter.layout, entryCluster, old(adapter.device.storage), old(chain), steps,
                     adapter.device.storage, chain, lost)
      ensures !IsOpen(steps) && (r == SUCCESS || r == DEVICE_FULL ==> lost == {})
      ensures r == DEVICE_FULL ==> Room() == old(Room()) == 0
      ensures r != SUCCESS ==> old(chain) == [] && chain == []
      ensures firstCluster < 0x1_0000_0000 && size < 0x1_0000_0000
      ensures EntryBlock() == UpdatedEntry(old(EntryBlock()), entryIndex, old(chain) == [] && chain != [], firstCluster,
                                           false, 0)
      ensures old(chain) != [] ==> chain == old(chain) && FrontBytes() == old(FrontBytes())
      ensures r == SUCCESS ==>
                && chain != [] && Room() == old(Room())
                && (old(chain) == [] ==> Front() == chain && byteOffsetIntoFile == 0)
    {
      hide Onward, IsOpen, RoomOf, FrontFrom, BytesOf, FirstClusterOf, SizeOf, WithFirstCluster, ClusterOf, FatOf;
      if currentCluster == 0 {
        HasNoCluster();
        r, steps, lost := TakeFirstCluster();
      } else {
        NotConfined(adapter.layout, adapter.device.storage, chain, entryCluster);
        Filled(adapter.device.storage);
        r, steps, lost := SUCCESS, [], {};
      }
    }

    /** Writes the buffer in a file that has a cluster.  The size is not brought up to date yet. */
    method WriteBuffer(stack: seq<byte>, buffer: seq<byte>)
      returns (r: ResultCode, ghost kept: nat, ghost steps: seq<Step>, ghost lost: set<seq<nat>>)
      requires Valid() && chain != [] && |stack| == adapter.layout.bytesPerCluster
      requires byteOffsetIntoFile + |buffer| + adapter.layout.bytesPerCluster < 0x1_0000_0000
      modifies adapter.device, adapter`lastEmptyClusterFound, this`chain, this`place
      modifies this`currentCluster, this`byteOffsetIntoCluster, this`byteOffsetIntoFile
      ensures adapter.device.reliable ==> r in {SUCCESS, DEVICE_FULL}
      ensures adapter.Valid() && chain != [] && EntryBlock() == old(EntryBlock())
      ensures Onward(adapter.layout, entryCluster, old(adapter.device.storage), old(chain), steps,
                     adapter.device.storage, chain, lost)
      ensures r in {SUCCESS, DEVICE_FULL} ==>
                && !IsOpen(steps) && (r == SUCCESS <==> old(byteOffsetIntoFile + |buffer| <= Boundary(Room())))
                && (lost == {} <==> !old(LosesFrom(place, byteOffsetIntoFile + |buffer|)))
                && (lost == {} ==> old(chain) <= chain)
      ensures r != SUCCESS && !IsOpen(steps) ==>
                && Valid() && old(byteOffsetIntoFile) <= byteOffsetIntoFile <= old(byteOffsetIntoFile) + |buffer|
                && Reached()[..byteOffsetIntoFile]
                   == old(Reached()[..byteOffsetIntoFile]) + buffer[..byteOffsetIntoFile - old(byteOffsetIntoFile)]
                && (byteOffsetIntoFile <= size ==>
                      Contents()[byteOffsetIntoFile..] == old(Contents())[byteOffsetIntoFile..])
      ensures r == DEVICE_FULL ==>
                && byteOffsetIntoFile == old(Boundary(Room())) && |Front()| == Room() == old(Room())
                && (if old(|Front()| < Room()) then Front() == chain else chain == old(chain))
                && byteOffsetIntoCluster == adapter.layout.bytesPerCluster
      ensures r == SUCCESS ==>
                && OnChain() && Positioned()
                && byteOffsetIntoFile == old(byteOffsetIntoFile) + |buffer|
                && Written(old(Reached()), FrontBytes(), old(byteOffsetIntoFile), buffer, kept)
                && kept <= Boundary(place + 1)
                && (place == old(place) && 0 < old(byteOffsetIntoCluster) ==> kept == byteOffsetIntoFile)
                && (buffer != [] && byteOffsetIntoFile <= old(Boundary(|Front()|)) ==>
                      ResultIs(old(FrontBytes()), adapter.layout.bytesPerCluster, old(byteOffsetIntoFile),
                               old(byteOffsetIntoCluster), buffer, stack, FrontBytes()))
    {
      hide *;
      ReachedIs();
      FrontReaches();
      RoomSuffices();
      LosesIs(byteOffsetIntoFile + |buffer|);
      NowIs();
      InsideIs(adapter.layout.bytesPerCluster, Now(), buffer);
      BoundaryIs(|Front()|);
      ghost var m0 := Now();
      r, kept, steps, lost := WriteAll(stack, buffer);
      if !IsOpen(steps) {
        Settled(m0, buffer, r, kept, steps, lost);
        ValidHere();
        ReachedIs();
      }
    }

    /** What a write has come to that has got to its end, or stopped without leaving a link open. */
    lemma Settled(m0: Moment, buffer: seq<byte>, r: ResultCode, kept: nat, steps: seq<Step>, lost: set<seq<nat>>)
      requires OnChain() && Positioned() && m0.at <= byteOffsetIntoFile <= m0.at + |buffer|
      requires TurnMade(adapter.layout, entryCluster, m0, Now(), buffer, byteOffsetIntoFile - m0.at, kept, steps, lost)
      requires m0.front <= m0.chain && size <= |m0.bytes| && (r == SUCCESS <==> byteOffsetIntoFile == m0.at + |buffer|)
      requires r == DEVICE_FULL ==>
                 Room() == |Front()| == place + 1 && byteOffsetIntoCluster == adapter.layout.bytesPerCluster
      ensures r == SUCCESS ==> m0.at + |buffer| <= Boundary(m0.room)
      ensures r == DEVICE_FULL ==> byteOffsetIntoFile == Boundary(m0.room)
      ensures Room() == m0.room
      ensures r in {SUCCESS, DEVICE_FULL} ==>
                && (lost == {} <==> !(|m0.front| < |m0.chain| && Boundary(|m0.front|) < m0.at + |buffer|
                                      && |m0.front| < m0.room))
                && (lost == {} ==> m0.chain <= chain)
      ensures r == DEVICE_FULL ==> if |m0.front| < m0.room then Front() == chain else chain == m0.chain
      ensures r == SUCCESS ==> Written(m0.bytes, FrontBytes(), m0.at, buffer, kept)
      ensures r != SUCCESS ==>
                && size <= |FrontBytes()| && byteOffsetIntoFile <= |FrontBytes()| && m0.at <= |m0.bytes|
                && FrontBytes()[..byteOffsetIntoFile] == m0.bytes[..m0.at] + buffer[..byteOffsetIntoFile - m0.at]
                && (byteOffsetIntoFile <= size ==>
                      FrontBytes()[..size][byteOffsetIntoFile..] == m0.bytes[..size][byteOffsetIntoFile..])
    {
      hide *;
      FrontReaches();
      RoomSuffices();
      NowIs();
      TurnIs(adapter.layout, m0, buffer, byteOffsetIntoFile - m0.at, kept, steps, lost);
      LossDecided(m0.chain, m0.front, m0.at + |buffer|, chain, Front(), lost, Room(), r);
      if r == SUCCESS {
        assert buffer[..|buffer|] == buffer;
      } else {
        StoppedIs(m0.bytes, FrontBytes(), size, m0.at, buffer, byteOffsetIntoFile, kept);
      }
    }

    /** The same, and brings the size up to date. */
    method WriteAndResize(stack: seq<byte>, buffer: seq<byte>)
      returns (r: ResultCode, ghost kept: nat, ghost steps: seq<Step>, ghost lost: set<seq<nat>>)
      requires Valid() && chain != [] && |stack| == adapter.layout.bytesPerCluster
      requires byteOffsetIntoFile + |buffer| + adapter.layout.bytesPerCluster < 0x1_0000_0000
      modifies adapter.device, adapter`lastEmptyClusterFound, this`chain, this`place, this`size
      modifies this`currentCluster, this`byteOffsetIntoCluster, this`byteOffsetIntoFile
      ensures adapter.device.reliable ==> r in {SUCCESS, DEVICE_FULL}
      ensures adapter.Valid() && chain != [] && HasEntry(old(EntryBlock()), entryIndex)
      ensures Onward(adapter.layout, entryCluster, old(adapter.device.storage), old(chain), steps,
                     adapter.device.storage, chain, lost)
      ensures r in {SUCCESS, DEVICE_FULL} ==>
                && !IsOpen(steps) && (r == SUCCESS <==> old(byteOffsetIntoFile + |buffer| <= Boundary(Room())))
                && (lost == {} <==> !old(LosesFrom(place, byteOffsetIntoFile + |buffer|)))
                && (lost == {} ==> old(chain) <= chain)
      ensures size < 0x1_0000_0000
      ensures EntryBlock() == UpdatedEntry(old(EntryBlock()), entryIndex, false, 0,
                                           r == SUCCESS && old(size) < byteOffsetIntoFile, size)
      ensures r != SUCCESS && !IsOpen(steps) && size == old(size) ==>
                && Valid() && old(byteOffsetIntoFile) <= byteOffsetIntoFile <= old(byteOffsetIntoFile) + |buffer|
                && Reached()[..byteOffsetIntoFile]
                   == old(Reached()[..byteOffsetIntoFile]) + buffer[..byteOffsetIntoFile - old(byteOffsetIntoFile)]
                && (byteOffsetIntoFile <= size ==>
                      Contents()[byteOffsetIntoFile..] == old(Contents())[byteOffsetIntoFile..])
      ensures r == DEVICE_FULL ==>
                && size == old(size) && byteOffsetIntoFile == old(Boundary(Room()))
                && |Front()| == Room() == old(Room())
                && (if old(|Front()| < Room()) then Front() == chain else chain == old(chain))
                && byteOffsetIntoCluster == adapter.layout.bytesPerCluster
      ensures r == SUCCESS ==>
                && Valid() && size == (if old(size) < byteOffsetIntoFile then byteOffsetIntoFile else old(size))
                && byteOffsetIntoFile == old(byteOffsetIntoFile) + |buffer|
                && Contents()[..byteOffsetIntoFile] == old(Reached()[..byteOffsetIntoFile]) + buffer
                && (kept <= old(size) ==> size == old(size) && Contents()[kept..] == old(Contents())[kept..])
                && kept <= Boundary(place + 1)
                && (place == old(place) && 0 < old(byteOffsetIntoCluster) ==> kept == byteOffsetIntoFile)
                && (buffer != [] && byteOffsetIntoFile <= old(Boundary(|Front()|)) ==>
                      ResultIs(old(FrontBytes()), adapter.layout.bytesPerCluster, old(byteOffsetIntoFile),
                               old(byteOffsetIntoCluster), buffer, stack, FrontBytes()))
    {
      hide *;
      ReachedIs();
      EntryHere();
      ghost var s0, c0, bytes0, start := adapter.device.storage, chain, Reached(), byteOffsetIntoFile;
      r, kept, steps, lost := WriteBuffer(stack, buffer);
      if r == SUCCESS {
        ghost var s1, bytes, was := adapter.device.storage, FrontBytes(), size;
        r := UpdateSize();
        OnwardOn(adapter.layout, entryCluster, s0, c0, steps, s1, chain, lost, [], adapter.device.storage, chain, {});
        assert steps + [] == steps && lost + {} == lost;
        if r == SUCCESS {
          ValidHere();
          ReachedIs();
          ContentsWritten(bytes0, bytes, was, start, buffer, kept, size);
        }
      }
    }

    lemma ValidHere()
      requires OnChain() && Positioned()
      ensures Valid() && chain != []
    {
    }

    lemma LosesIs(end: nat)
      requires adapter.Valid()
      ensures LosesFrom(place, end) <==> |Front()| < |chain| && Boundary(|Front()|) < end && |Front()| < Room()
    {
    }

    /** Room and loss are decided by the front. */
    lemma FrontDecides(i: nat, end: nat)
      requires adapter.Valid()
      ensures RoomFrom(i) == RoomOf(FrontFrom(i), adapter.Fat(), adapter.SearchStart())
      ensures LosesFrom(i, end) <==>
              |FrontFrom(i)| < |chain| && Boundary(|FrontFrom(i)|) < end && |FrontFrom(i)| < RoomFrom(i)
      ensures Front() == FrontFrom(place) && Room() == RoomFrom(place)
    {
    }

    /** Writes the buffer at the position.  What a write to the end of the file or past it leaves is what lay before
        the position, then the buffer.  One that stops inside the file keeps the bytes from `kept` on: those behind
        the buffer if it began and ended in a cluster it had to read, those of the following clusters otherwise.
        When the device is full the first part of the buffer has been written, the chain has grown to all it could
        get, and the size is the old one.  A write loses clusters exactly if it grows the file from a cluster that
        is not its last.  `stack` is what the block buffer holds on entry. */
    method Write(stack: seq<byte>, buffer: seq<byte>)
      returns (r: ResultCode, ghost kept: nat, ghost steps: seq<Step>, ghost lost: set<seq<nat>>)
      requires Valid() && |stack| == adapter.layout.bytesPerCluster
      requires byteOffsetIntoFile + |buffer| + adapter.layout.bytesPerCluster < 0x1_0000_0000
      modifies this, adapter.device, adapter`lastEmptyClusterFound
      ensures adapter.device.reliable ==> r in {SUCCESS, DEVICE_FULL}
      ensures adapter.Valid() && HasEntry(old(EntryBlock()), entryIndex)
      // What becomes of the volume.
      ensures Leads(old(adapter.Fat()), Owned(old(chain)), steps, adapter.Fat(), Owned(chain) + lost)
      ensures Owned(chain) !! lost
      ensures Confined(adapter.layout, old(adapter.device.storage), old(chain), entryCluster,
                       adapter.device.storage, chain)
      ensures r in {SUCCESS, DEVICE_FULL} ==>
                && !IsOpen(steps)
                && (r == SUCCESS <==> old(1 <= Room() && byteOffsetIntoFile + |buffer| <= Boundary(Room())))
                && (lost == {} <==> !old(LosesFrom(place, byteOffsetIntoFile + |buffer|)))
                && (Accounted(adapter.Fat(), Owned(chain)) == old(Accounted(adapter.Fat(), Owned(chain)))
                    <==> !old(LosesFrom(place, byteOffsetIntoFile + |buffer|)))
                && (lost == {} ==> old(chain) <= chain)
      ensures firstCluster < 0x1_0000_0000 && size < 0x1_0000_0000
      ensures EntryBlock() == UpdatedEntry(old(EntryBlock()), entryIndex, old(chain) == [] && chain != [], firstCluster,
                                           r == SUCCESS && old(size) < byteOffsetIntoFile, size)
      // What becomes of the file.
      ensures r != SUCCESS && !IsOpen(steps) && size == old(size) ==>
                && Valid() && old(byteOffsetIntoFile) <= byteOffsetIntoFile <= old(byteOffsetIntoFile) + |buffer|
                && Reached()[..byteOffsetIntoFile]
                   == old(Reached()[..byteOffsetIntoFile]) + buffer[..byteOffsetIntoFile - old(byteOffsetIntoFile)]
                && (byteOffsetIntoFile <= size ==>
                      Contents()[byteOffsetIntoFile..] == old(Contents())[byteOffsetIntoFile..])
      ensures r == DEVICE_FULL ==>
                && size == old(size) && byteOffsetIntoFile == old(Boundary(Room()))
                && |Front()| == Room() == old(Room())
                && (if old(|Front()| < Room()) then Front() == chain else chain == old(chain))
                && (chain != [] ==> byteOffsetIntoCluster == adapter.layout.bytesPerCluster)
      ensures r == SUCCESS ==>
                && Valid() && chain != []
                && size == (if old(size) < byteOffsetIntoFile then byteOffsetIntoFile else old(size))
                && byteOffsetIntoFile == old(byteOffsetIntoFile) + |buffer|
                && Contents()[..byteOffsetIntoFile] == old(Reached()[..byteOffsetIntoFile]) + buffer
                && (kept <= old(size) ==> size == old(size) && Contents()[kept..] == old(Contents())[kept..])
                && kept <= Boundary(place + 1)
                && (place == old(place) && 0 < old(byteOffsetIntoCluster) ==> kept == byteOffsetIntoFile)
                && (buffer != [] && old(chain) != [] && byteOffsetIntoFile <= old(Boundary(|Front()|)) ==>
                      ResultIs(old(FrontBytes()), adapter.layout.bytesPerCluster, old(byteOffsetIntoFile),
                               old(byteOffsetIntoCluster), buffer, stack, FrontBytes()))
    {
      hide *;
      ghost var s0, c0, entry := adapter.device.storage, chain, EntryBlock();
      ReachedIs();
      LosesIs(byteOffsetIntoFile + |buffer|);
      r, steps, lost := EnsureFirstCluster();
      kept := byteOffsetIntoFile;
      ReachedIs();
      if r != SUCCESS {
        OnwardIs(s0, c0, steps, lost);
        return;
      }
      LosesIs(byteOffsetIntoFile + |buffer|);
      RoomSuffices();
      ghost var s1, c1, was := adapter.device.storage, chain, size;
      ghost var more, lostNow;
      r, kept, more, lostNow := WriteAndResize(stack, buffer);
      OnwardOn(adapter.layout, entryCluster, s0, c0, steps, s1, c1, lost, more, adapter.device.storage, chain, lostNow);
      steps, lost := steps + more, lost + lostNow;
      OnwardIs(s0, c0, steps, lost);
      UpdatedTwice(entry, entryIndex, c0 == [], firstCluster, r == SUCCESS && was < byteOffsetIntoFile, size);
    }

    lemma EntryHere()
      requires Valid()
      ensures firstCluster < 0x1_0000_0000 && size < 0x1_0000_0000 && HasEntry(EntryBlock(), entryIndex)
      ensures adapter.Valid() && adapter.layout.InRange(entryCluster)
      ensures EntryBlock() == ClusterOf(adapter.layout, adapter.device.storage, entryCluster)
    {
    }

    lemma OnwardIs(s0: seq<byte>, c0: seq<nat>, steps: seq<Step>, lost: set<seq<nat>>)
      requires adapter.Valid()
      requires Onward(adapter.layout, entryCluster, s0, c0, steps, adapter.device.storage, chain, lost)
      ensures adapter.layout.FitsOn(s0)
      ensures Leads(FatOf(adapter.layout, s0), Owned(c0), steps, adapter.Fat(), Owned(chain) + lost)
      ensures Owned(chain) !! lost
      ensures Accounted(adapter.Fat(), Owned(chain)) == Accounted(FatOf(adapter.layout, s0), Owned(c0)) <==> lost == {}
      ensures Confined(adapter.layout, s0, c0, entryCluster, adapter.device.storage, chain)
    {
      hide Leads, Confined, Owned, WellFormed, FatOf, Accounted;
      assert Owned(c0) + {} == Owned(c0) && Owned(chain) + {} == Owned(chain);
      OperationLosesExactlyIf(FatOf(adapter.layout, s0), Owned(c0), steps, adapter.Fat(), Owned(chain), lost, {});
    }

    /** Writes the buffer at the end of the file.  Where the position is past the size, as a full device leaves it,
        it comes to lie behind what was written then. */
    method Append(stack: seq<byte>, buffer: seq<byte>)
      returns (r: ResultCode, ghost steps: seq<Step>, ghost lost: set<seq<nat>>)
      requires Valid() && |stack| == adapter.layout.bytesPerCluster
      requires AppendStart() + |buffer| + adapter.layout.bytesPerCluster < 0x1_0000_0000
      modifies this, adapter.device, adapter`lastEmptyClusterFound
      ensures adapter.device.reliable ==> r in {SUCCESS, DEVICE_FULL}
      ensures adapter.Valid() && HasEntry(old(EntryBlock()), entryIndex)
      // What becomes of the volume.
      ensures Leads(old(adapter.Fat()), Owned(old(chain)), steps, adapter.Fat(), Owned(chain) + lost)
      ensures Owned(chain) !! lost
      ensures Confined(adapter.layout, old(adapter.device.storage), old(chain), entryCluster,
                       adapter.device.storage, chain)
      ensures r in {SUCCESS, DEVICE_FULL} ==>
                && !IsOpen(steps)
                && (r == SUCCESS <==> old(1 <= RoomFrom(AppendPlace())
                                          && AppendStart() + |buffer| <= Boundary(RoomFrom(AppendPlace()))))
                && (lost == {} <==> !old(LosesFrom(AppendPlace(), AppendStart() + |buffer|)))
                && (Accounted(adapter.Fat(), Owned(chain)) == old(Accounted(adapter.Fat(), Owned(chain)))
                    <==> !old(LosesFrom(AppendPlace(), AppendStart() + |buffer|)))
                && (lost == {} ==> old(chain) <= chain)
      ensures firstCluster < 0x1_0000_0000 && size < 0x1_0000_0000
      ensures EntryBlock() == UpdatedEntry(old(EntryBlock()), entryIndex, old(chain) == [] && chain != [], firstCluster,
                                           r == SUCCESS && old(size) < byteOffsetIntoFile, size)
      // What becomes of the file.
      ensures r != SUCCESS && !IsOpen(steps) && size == old(size) ==> Valid() && Contents() == old(Contents())
      ensures r == DEVICE_FULL ==>
                && Valid() && size == old(size)
                && old(AppendStart()) <= byteOffsetIntoFile == old(Boundary(RoomFrom(AppendPlace())))
                && |Front()| == Room() == old(RoomFrom(AppendPlace()))
                && byteOffsetIntoFile - old(AppendStart()) <= |buffer|
                && Reached() == old(AppendBase()) + buffer[..byteOffsetIntoFile - old(AppendStart())]
      ensures r == SUCCESS ==>
                && Valid() && size == byteOffsetIntoFile == old(AppendStart()) + |buffer|
                && Contents() == old(AppendBase()) + buffer
                && (Contents() == old(Contents()) + buffer <==> old(byteOffsetIntoFile <= size || size == 0))
    {
      hide *;
      ghost var s0, end, base := adapter.device.storage, AppendStart() + |buffer|, AppendBase();
      ReachedIs();
      AppendBaseIs();
      FrontDecides(AppendPlace(), end);
      NotOnward();
      EntryHere();
      steps, lost := [], {};
      r := SeekEnd();
      if r != SUCCESS {
        OnwardIs(s0, chain, [], {});
        return;
      }
      ReachedIs();
      FrontDecides(place, end);
      ghost var kept;
      ghost var was, start := size, byteOffsetIntoFile;
      r, kept, steps, lost := Write(stack, buffer);
      if r != SUCCESS && !IsOpen(steps) && size == was {
        ReachedIs();
        FrontOfAppended(Reached(), base, buffer[..byteOffsetIntoFile - start], size, byteOffsetIntoFile);
      }
    }

    /** Nothing done is a way onward without steps. */
    lemma NotOnward()
      requires Valid()
      ensures adapter.layout.Valid() && adapter.layout.FitsOn(adapter.device.storage)
      ensures Onward(adapter.layout, entryCluster, adapter.device.storage, chain, [], adapter.device.storage, chain, {})
      ensures !IsOpen([])
    {
      hide Onward, IsOpen, BytesOf;
      NotConfined(adapter.layout, adapter.device.storage, chain, entryCluster);
      Filled(adapter.device.storage);
    }
  }

  // ---------------------------------------------------------------- the first write to a file

  /** A write of at most one cluster to an empty file, on a reliable device: it succeeds exactly if a cluster below the
      maximum is free at or behind both the root cluster and the highest one found before, and then the file holds the
      buffer. */
  method WriteToEmpty(f: FatFile, stack: seq<byte>, buffer: seq<byte>) returns (r: ResultCode)
    requires f.Valid() && f.adapter.device.reliable && f.chain == []
    requires |buffer| <= |stack| == f.adapter.layout.bytesPerCluster
    requires f.byteOffsetIntoFile + |buffer| + f.adapter.layout.bytesPerCluster < 0x1_0000_0000
    modifies f, f.adapter.device, f.adapter`lastEmptyClusterFound
    ensures r == SUCCESS <==>
            exists c: nat :: && f.adapter.layout.rootCluster <= c < f.adapter.layout.maximumCluster
                             && old(f.adapter.lastEmptyClusterFound) <= c && old(f.adapter.Fat())[c] == 0
    ensures r == SUCCESS ==> f.Valid() && f.Contents() == buffer && f.size == |buffer|
    ensures r != SUCCESS ==> r == DEVICE_FULL && f.chain == [] && f.size == 0
  {
    hide *;
    ghost var kept, steps, lost;
    f.EmptyHasRoom(|buffer|);
    f.ReachedIs();
    r, kept, steps, lost := f.Write(stack, buffer);
    f.ReachedIs();
  }

  // ---------------------------------------------------------------- an append after a full device

  /** An append that does not fit writes what fits; the next one on the same handle, when it succeeds, as that of
      nothing does, puts its buffer behind that part and not behind what the file held. */
  method AppendAfterFull(f: FatFile, stack: seq<byte>, big: seq<byte>, next: seq<byte>)
    returns (r: ResultCode, s: ResultCode)
    requires f.Valid() && f.adapter.device.reliable && 0 < f.size && f.byteOffsetIntoFile <= f.size
    requires |stack| == f.adapter.layout.bytesPerCluster
    requires f.size < f.Boundary(f.Room()) < f.size + |big|
    requires f.size + |big| + |next| + f.adapter.layout.bytesPerCluster < 0x1_0000_0000
    modifies f, f.adapter.device, f.adapter`lastEmptyClusterFound
    ensures r == DEVICE_FULL && (s == SUCCESS <==> next == []) && f.adapter.Valid()
    ensures s == SUCCESS ==>
              var part := big[..old(f.Boundary(f.Room()) - f.size)];
              && part != [] && f.Valid() && f.Contents() == old(f.Contents()) + part + next
              && f.Contents() != old(f.Contents()) + next
  {
    hide *;
    ghost var steps, lost;
    f.ReachedIs();
    f.AppendBaseIs();
    f.AppendStarts();
    r, steps, lost := f.Append(stack, big);
    f.ReachedIs();
    f.FrontReaches();
    f.AppendBaseIs();
    f.AppendStarts();
    s, steps, lost := f.Append(stack, next);
  }

  // ---------------------------------------------------------------- two handles

  /** What a write through one handle leaves of the entry that another stands for. */
  lemma OtherEntryOn(l: Layout, before: seq<byte>, chain: seq<nat>, entryCluster: nat, entryIndex: nat,
                     after: seq<byte>, longer: seq<nat>,
                     other: seq<nat>, first: nat, otherCluster: nat, otherIndex: nat, size: nat)
    requires Confined(l, before, chain, entryCluster, after, longer)
    requires EntryOn(l, before, other, first, otherCluster, otherIndex, size) && otherCluster !in chain
    requires otherCluster == entryCluster ==>
               otherIndex != entryIndex
               && OthersKept(ClusterOf(l, before, entryCluster), ClusterOf(l, after, entryCluster), entryIndex)
    ensures EntryOn(l, after, other, first, otherCluster, otherIndex, size)
  {
    hide FirstClusterOf, SizeOf, ClusterOf, FatOf;
    assert HasEntry(ClusterOf(l, before, otherCluster), otherIndex);
  }

  /** `g.Valid()` with other bytes on the device. */
  ghost predicate ValidOn(g: FatFile, storage: seq<byte>)
    reads g
  {
    var l := g.adapter.layout;
    && EntryOn(l, storage, g.chain, g.firstCluster, g.entryCluster, g.entryIndex, g.size)
    && if g.chain == [] then
         g.firstCluster == 0 && g.currentCluster == 0 && g.size == 0
         && g.byteOffsetIntoCluster == 0 && g.byteOffsetIntoFile == 0 && g.place == 0
       else
         && FileOn(l, storage, g.chain, g.firstCluster, g.entryCluster, g.entryIndex, g.size)
         && g.size <= g.Boundary(|g.chain|) && g.Positioned()
  }

  /** What the file holds then. */
  ghost function ContentsOn(g: FatFile, storage: seq<byte>): seq<byte>
    requires ValidOn(g, storage)
    reads g
  {
    if g.chain == [] then [] else BytesOf(g.adapter.layout, storage, g.chain)[..g.size]
  }

  lemma ValidOnDevice(g: FatFile)
    requires g.adapter.Valid()
    ensures g.Valid() <==> ValidOn(g, g.adapter.device.storage)
    ensures g.Valid() ==> g.Contents() == ContentsOn(g, g.adapter.device.storage)
  {
  }

  /** A handle on another file stays what it is, and so does what the file holds, when the first has written: also
      when both entries lie in the same cluster of a directory.  `before` is what the device held, and `was` the
      chain of the file written. */
  lemma OtherHandleKept(f: FatFile, g: FatFile, before: seq<byte>, was: seq<nat>)
    requires f.adapter == g.adapter && f.adapter.Valid() && ValidOn(g, before)
    requires Disjoint(g.chain, was) && f.entryCluster !in g.chain && g.entryCluster !in was
    requires g.entryCluster == f.entryCluster ==>
               g.entryIndex != f.entryIndex
               && OthersKept(ClusterOf(f.adapter.layout, before, f.entryCluster), f.EntryBlock(), f.entryIndex)
    requires Confined(f.adapter.layout, before, was, f.entryCluster, f.adapter.device.storage, f.chain)
    ensures g.Valid() && g.Contents() == ContentsOn(g, before)
  {
    hide FirstClusterOf, SizeOf, ClusterOf, FatOf, BytesOf, OthersKept;
    var l, after := f.adapter.layout, f.adapter.device.storage;
    OtherEntryOn(l, before, was, f.entryCluster, f.entryIndex, after, f.chain,
                 g.chain, g.firstCluster, g.entryCluster, g.entryIndex, g.size);
    if g.chain != [] {
      OtherFilesKept(l, before, was, f.entryCluster, after, f.chain, g.chain);
      SameBlocks(l, before, after, g.chain);
    }
    ValidOnDevice(g);
  }

  lemma SameBlocks(l: Layout, s0: seq<byte>, s1: seq<byte>, chain: seq<nat>)
    requires l.Valid() && l.FitsOn(s0) && l.FitsOn(s1) && forall i :: 0 <= i < |chain| ==> l.InRange(chain[i])
    requires BlocksOf(l, s1, chain) == BlocksOf(l, s0, chain)
    ensures BytesOf(l, s1, chain) == BytesOf(l, s0, chain)
  {
  }

  /** A write through one handle, whatever becomes of it, with a second handle open on another file. */
  method WriteBeside(f: FatFile, g: FatFile, stack: seq<byte>, buffer: seq<byte>)
    returns (r: ResultCode)
    requires f != g && f.adapter == g.adapter && f.Valid() && g.Valid()
    requires Disjoint(g.chain, f.chain) && f.entryCluster !in g.chain && g.entryCluster !in f.chain
    requires g.entryCluster == f.entryCluster ==> g.entryIndex != f.entryIndex
    requires |stack| == f.adapter.layout.bytesPerCluster
    requires f.byteOffsetIntoFile + |buffer| + f.adapter.layout.bytesPerCluster < 0x1_0000_0000
    modifies f, f.adapter.device, f.adapter`lastEmptyClusterFound
    ensures g.Valid() && g.Contents() == old(g.Contents())
  {
    hide *;
    ghost var kept, steps, lost;
    ghost var before, was, entry, size := f.adapter.device.storage, f.chain, f.EntryBlock(), f.size;
    f.ReachedIs();
    f.EntryHere();
    ValidOnDevice(g);
    r, kept, steps, lost := f.Write(stack, buffer);
    UpdateKeepsOthers(entry, f.entryIndex, was == [] && f.chain != [], f.firstCluster,
                      r == SUCCESS && size < f.byteOffsetIntoFile, f.size);
    OtherHandleKept(f, g, before, was);
  }

  // ---------------------------------------------------------------- runs of reads

  /** Where a read of `space` bytes from `position` on ends. */
  function ReadEnd(position: nat, space: nat, size: nat): (end: nat)
    requires position <= size
    ensures position <= end <= size
  {
    position + Min(space, size - position)
  }

  /** What reads with the given buffer capacities append, one after the other, from `position` on. */
  ghost function Reads(contents: seq<byte>, position: nat, spaces: seq<nat>): seq<byte>
    requires position <= |contents|
    decreases |spaces|
  {
    if spaces == [] then []
    else
      var end := ReadEnd(position, spaces[0], |contents|);
      contents[position..end] + Reads(contents, end, spaces[1..])
  }

  ghost function Sum(ns: seq<nat>): nat
  {
    if ns == [] then 0 else ns[0] + Sum(ns[1..])
  }

  lemma ReadOn(position: nat, a: nat, b: nat, size: nat)
    requires position <= size
    ensures ReadEnd(ReadEnd(position, a, size), b, size) == ReadEnd(position, a + b, size)
  {
  }

  /** Successive reads concatenate: together they append what one read into all the space would. */
  lemma {:induction false} ReadsConcatenate(contents: seq<byte>, position: nat, spaces: seq<nat>)
    requires position <= |contents|
    ensures Reads(contents, position, spaces) == contents[position..ReadEnd(position, Sum(spaces), |contents|)]
    decreases |spaces|
  {
    hide ReadEnd;
    if spaces == [] {
      NothingRead(position, |contents|);
    } else {
      var next := ReadEnd(position, spaces[0], |contents|);
      ReadsConcatenate(contents, next, spaces[1..]);
      ReadOn(position, spaces[0], Sum(spaces[1..]), |contents|);
      SlicesJoin(contents, position, next, ReadEnd(position, Sum(spaces), |contents|));
    }
  }

  /** `appended` is what lies between the two positions, and the reads still to come complete it. */
  ghost predicate ReadSoFar(contents: seq<byte>, start: nat, now: nat, spaces: seq<nat>, i: nat, appended: seq<byte>)
  {
    && start <= now <= |contents| && i <= |spaces| && appended == contents[start..now]
    && appended + Reads(contents, now, spaces[i..]) == Reads(contents, start, spaces)
  }

  lemma NothingReadYet(contents: seq<byte>, start: nat, spaces: seq<nat>)
    requires start <= |contents|
    ensures ReadSoFar(contents, start, start, spaces, 0, [])
  {
    assert spaces[0..] == spaces;
  }

  lemma OneMoreRead(contents: seq<byte>, start: nat, mid: nat, now: nat, spaces: seq<nat>, i: nat,
                    appended: seq<byte>, chunk: seq<byte>, whole: bool)
    requires ReadSoFar(contents, start, mid, spaces, i, appended) && i < |spaces|
    requires now == mid + |chunk| <= |contents| && chunk == contents[mid..now]
    requires whole ==> |chunk| == Min(spaces[i], |contents| - mid)
    ensures appended + chunk == contents[start..now]
    ensures whole ==> ReadSoFar(contents, start, now, spaces, i + 1, appended + chunk)
  {
    SlicesJoin(contents, start, mid, now);
    if whole {
      var left := spaces[i..];
      assert left[0] == spaces[i] && left[1..] == spaces[i + 1..];
      assert now == ReadEnd(mid, left[0], |contents|);
      assert appended + (chunk + Reads(contents, now, left[1..])) == appended + chunk + Reads(contents, now, left[1..]);
    }
  }

  lemma AllRead(contents: seq<byte>, start: nat, now: nat, spaces: seq<nat>, appended: seq<byte>)
    requires ReadSoFar(contents, start, now, spaces, |spaces|, appended)
    ensures appended == contents[start..now] && |appended| == Min(Sum(spaces), |contents| - start)
  {
    ReadsConcatenate(contents, start, spaces);
  }

  lemma NothingRead(position: nat, size: nat)
    requires position <= size
    ensures ReadEnd(position, 0, size) == position
  {
  }
}
