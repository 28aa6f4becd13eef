/** Cluster chains in a FAT: what they are, and what allocating, extending and releasing do to them. */
module Chains {
  import opened FatLayout

  ghost predicate Distinct<T>(s: seq<T>)
  {
    forall i, j :: 0 <= i < j < |s| ==> s[i] != s[j]
  }

  /** Each cluster's entry names the next, and the last one's marks the end of the file. */
  ghost predicate Linked(fat: seq<nat>, chain: seq<nat>)
  {
    && chain != []
    && (forall i :: 0 <= i < |chain| ==> 2 <= chain[i] < |fat|)
    && (forall i :: 0 <= i < |chain| - 1 ==> fat[chain[i]] == chain[i + 1])
    && fat[chain[|chain| - 1]] == 0x0FFF_FFFF
  }

  /** A chain in range, without cycles, that ends with the end-of-file mark. */
  ghost predicate IsChain(fat: seq<nat>, chain: seq<nat>)
  {
    Linked(fat, chain) && Distinct(chain)
  }

  /** The FAT with the entries of `chain` set free. */
  function Released(fat: seq<nat>, chain: seq<nat>): (r: seq<nat>)
    ensures |r| == |fat|
    ensures forall c :: 0 <= c < |fat| ==> r[c] == if c in chain then EntryFree else fat[c]
  {
    seq(|fat|, c requires 0 <= c < |fat| => if c in chain then EntryFree else fat[c])
  }

  lemma ReleasedNext(fat: seq<nat>, chain: seq<nat>, k: nat)
    requires k < |chain| && chain[k] < |fat|
    ensures Released(fat, chain[..k])[chain[k] := EntryFree] == Released(fat, chain[..k + 1])
  {
    assert chain[..k + 1] == chain[..k] + [chain[k]];
  }

  /** What follows the cluster at place `i`. */
  lemma LinkAt(fat: seq<nat>, chain: seq<nat>, i: nat)
    requires IsChain(fat, chain) && i < |chain|
    ensures 2 <= chain[i] < |fat|
    ensures fat[chain[i]] == if i == |chain| - 1 then EndOfFile else chain[i + 1]
    ensures i < |chain| - 1 ==> 2 <= chain[i + 1] < |fat|
  {
  }

  /** Releasing the front of a chain leaves its remaining links in place. */
  lemma StillLinked(fat: seq<nat>, chain: seq<nat>, k: nat)
    requires IsChain(fat, chain) && k < |chain|
    ensures Released(fat, chain[..k])[chain[k]] == fat[chain[k]]
  {
    assert chain[k] !in chain[..k];
  }

  /** The links of a chain determine it: two chains with the same head are the same. */
  lemma ChainUnique(fat: seq<nat>, a: seq<nat>, b: seq<nat>)
    requires IsChain(fat, a) && IsChain(fat, b) && a[0] == b[0] && |fat| <= EntryDefective
    ensures a == b
  {
    var n := if |a| < |b| then |a| else |b|;
    CommonPrefix(fat, a, b, n);
    assert a[..n][n - 1] == b[..n][n - 1];
    var last: nat := n - 1;
    if |a| < |b| {
      LinkAt(fat, b, last);
    } else if |b| < |a| {
      LinkAt(fat, a, last);
    }
    assert a == a[..|a|] && b == b[..|b|];
  }

  lemma {:induction false} CommonPrefix(fat: seq<nat>, a: seq<nat>, b: seq<nat>, n: nat)
    requires IsChain(fat, a) && IsChain(fat, b) && a[0] == b[0] && n <= |a| && n <= |b|
    ensures a[..n] == b[..n]
  {
    if 1 < n {
      CommonPrefix(fat, a, b, n - 1);
      assert a[..n - 1][n - 2] == b[..n - 1][n - 2];
      assert fat[a[n - 2]] == a[n - 1] && fat[b[n - 2]] == b[n - 1];
    }
  }
}

/** The adapter between the file system and the block device. */
module FatAdapter {
  import opened Memory
  import opened LayoutArithmetic
  import opened BlockDevices
  import opened FatLayout
  import opened Chains

  datatype ResultCode =
    | SUCCESS | CLUSTER_OUT_OF_RANGE | UNABLE_TO_READ_FAT_TABLE_SECTOR
    | UNABLE_TO_WRITE_FAT_TABLE_SECTOR | DEVICE_FULL | DEVICE_READ_ERROR | DEVICE_WRITE_ERROR
    | ALREADY_AT_FIRST_CLUSTER | CLUSTER_NOT_PRESENT_IN_CHAIN
    | UNABLE_TO_FIND_EMPTY_BLOCK_OF_DIRECTORY_ENTRIES | ITERATOR_AT_END | NUMERIC_TAIL_OUT_OF_RANGE
    | FILENAME_ALREADY_IN_USE | EMPTY_FILENAME | FILENAME_TOO_LONG | FILENAME_CONTAINS_FORBIDDEN_CHARACTERS
    | FILE_NOT_FOUND | DIRECTORY_NOT_FOUND
    // No code of the program: here it takes the value of a numeric tail that is not there.  What it does then
    // is not modelled.
    | TAIL_ABSENT

  /** What reading a directory can end in. */
  ghost predicate IsReadResult(r: ResultCode)
  {
    r in {SUCCESS, DEVICE_READ_ERROR, UNABLE_TO_READ_FAT_TABLE_SECTOR}
  }

  lemma ReadResult(r: ResultCode)
    requires r in {SUCCESS, DEVICE_READ_ERROR, UNABLE_TO_READ_FAT_TABLE_SECTOR}
    ensures IsReadResult(r)
  {
  }

  /** What writing a run into a directory can end in. */
  ghost predicate IsPlacingResult(r: ResultCode)
  {
    r in {SUCCESS, DEVICE_FULL, UNABLE_TO_FIND_EMPTY_BLOCK_OF_DIRECTORY_ENTRIES, DEVICE_READ_ERROR, DEVICE_WRITE_ERROR,
          UNABLE_TO_READ_FAT_TABLE_SECTOR, UNABLE_TO_WRITE_FAT_TABLE_SECTOR}
  }

  lemma PlacingResult(r: ResultCode)
    requires r in {SUCCESS, DEVICE_FULL, UNABLE_TO_FIND_EMPTY_BLOCK_OF_DIRECTORY_ENTRIES, DEVICE_READ_ERROR,
                   DEVICE_WRITE_ERROR, UNABLE_TO_READ_FAT_TABLE_SECTOR, UNABLE_TO_WRITE_FAT_TABLE_SECTOR}
    ensures IsPlacingResult(r)
  {
  }

  datatype Result<+T> = Success(value: T) | Failure(code: ResultCode)

  lemma SliceOfSlice(s: seq<byte>, at: nat, n: nat, offset: nat, m: nat)
    requires at + n <= |s| && offset + m <= n
    ensures s[at..at + n][offset..offset + m] == s[at + offset..at + offset + m]
  {
    var t, u := s[at..at + n][offset..offset + m], s[at + offset..at + offset + m];
    assert |t| == |u| && forall k :: 0 <= k < m ==> t[k] == s[at + offset + k] == u[k];
  }

  /** Writing four bytes at an entry's offset changes no other entry, in the FAT or past it. */
  lemma WriteWord(l: Layout, storage: seq<byte>, c: nat, v: nat, d: nat)
    requires l.FatOffset(c) + 4 <= |storage| && l.FatOffset(d) + 4 <= |storage| && v < 0x1_0000_0000
    ensures Entry(l, Splice(storage, l.FatOffset(c), Encode32(v)), d) ==
            if d == c then v else Entry(l, storage, d)
  {
    DecodeEncode32(v);
    SpliceSlice(storage, l.FatOffset(c), Encode32(v), l.FatOffset(d), l.FatOffset(d) + 4);
  }

  // ---------------------------------------------------------------- walking along the links

  /** The word a walk reads at `c`: none where the range check refuses the number or the device ends before it. */
  ghost function NextLink(l: Layout, storage: seq<byte>, c: nat): Option<nat>
  {
    if l.OutOfRange(c) || |storage| < l.FatOffset(c) + 4 then None else Some(Entry(l, storage, c))
  }

  /** Where a walk from `first` on stands after `k` turns. */
  ghost function Walk(l: Layout, storage: seq<byte>, first: nat, k: nat): Option<nat>
  {
    if k == 0 then Some(first)
    else
      match Walk(l, storage, first, k - 1)
      case None => None
      case Some(d) => NextLink(l, storage, d)
  }

  /** A walk that looks for `c` goes on from where it stands. */
  ghost predicate WalksOn(c: nat, at: Option<nat>)
  {
    at.Some? && at.value != c && at.value < 0x0FFF_FFF8
  }

  /** The walk comes to an end. */
  ghost predicate WalkEnds(l: Layout, storage: seq<byte>, first: nat, c: nat)
  {
    exists k: nat :: 0 < k && !WalksOn(c, Walk(l, storage, first, k))
  }

  /** The walk comes, while it goes on, to a number it has been at. */
  ghost predicate ComesBack(l: Layout, storage: seq<byte>, first: nat, c: nat)
  {
    exists i: nat, j: nat ::
      && i < j && Walk(l, storage, first, i) == Walk(l, storage, first, j)
      && forall k :: 0 < k <= j ==> WalksOn(c, Walk(l, storage, first, k))
  }

  lemma {:induction false} WalkRepeats(l: Layout, storage: seq<byte>, first: nat, i: nat, j: nat, m: nat)
    requires Walk(l, storage, first, i) == Walk(l, storage, first, j)
    ensures Walk(l, storage, first, i + m) == Walk(l, storage, first, j + m)
  {
    hide NextLink;
    if 0 < m {
      WalkRepeats(l, storage, first, i, j, m - 1);
    }
  }

  lemma {:induction false} GoesRound(l: Layout, storage: seq<byte>, first: nat, c: nat, i: nat, j: nat, k: nat)
    requires i < j && Walk(l, storage, first, i) == Walk(l, storage, first, j)
    requires forall k :: 0 < k <= j ==> WalksOn(c, Walk(l, storage, first, k))
    requires 0 < k
    ensures WalksOn(c, Walk(l, storage, first, k))
    decreases k
  {
    hide Walk, WalksOn;
    if j < k {
      WalkRepeats(l, storage, first, i, j, k - j);
      GoesRound(l, storage, first, c, i, j, i + (k - j));
    }
  }

  ghost function Below(n: nat): (s: set<nat>)
    ensures forall x :: x in s <==> 0 <= x < n
    ensures |s| == n
  {
    if n == 0 then {} else Below(n - 1) + {n - 1}
  }

  /** What the walk has been at before turn `k`. */
  ghost function Visited(l: Layout, storage: seq<byte>, first: nat, k: nat): set<nat>
  {
    if k == 0 then {}
    else
      Visited(l, storage, first, k - 1)
      + match Walk(l, storage, first, k - 1) { case None => {} case Some(d) => {d} }
  }

  ghost predicate WasAt(l: Layout, storage: seq<byte>, first: nat, k: nat, d: nat)
  {
    exists i: nat :: i < k && Walk(l, storage, first, i) == Some(d)
  }

  lemma {:induction false} VisitedAre(l: Layout, storage: seq<byte>, first: nat, k: nat, d: nat)
    requires d in Visited(l, storage, first, k)
    ensures WasAt(l, storage, first, k, d)
  {
    hide Walk;
    if 0 < k {
      if d in Visited(l, storage, first, k - 1) {
        VisitedAre(l, storage, first, k - 1, d);
        var i: nat :| i < k - 1 && Walk(l, storage, first, i) == Some(d);
        assert i < k;
      } else {
        assert Walk(l, storage, first, k - 1) == Some(d);
      }
    }
  }

  /** As long as the walk goes on and does not come back, each turn gets to a new number. */
  lemma {:induction false} VisitedCount(l: Layout, storage: seq<byte>, first: nat, c: nat, k: nat)
    requires forall i :: 0 < i < k ==> WalksOn(c, Walk(l, storage, first, i))
    requires forall i, j :: 0 <= i < j < k ==> Walk(l, storage, first, i) != Walk(l, storage, first, j)
    ensures |Visited(l, storage, first, k)| == k && Visited(l, storage, first, k) <= {first} + Below(EOFThreshold)
  {
    hide Walk, Below, WasAt;
    if 0 < k {
      VisitedCount(l, storage, first, c, k - 1);
      WalkStarts(l, storage, first);
      var at, before := Walk(l, storage, first, k - 1), Visited(l, storage, first, k - 1);
      assert at.Some? && (at.value == first || at.value < EOFThreshold);
      if at.value in before {
        VisitedAre(l, storage, first, k - 1, at.value);
        NotBackYet(l, storage, first, k - 1, at.value);
      }
      assert Visited(l, storage, first, k) == before + {at.value};
    }
  }

  lemma NotBackYet(l: Layout, storage: seq<byte>, first: nat, k: nat, d: nat)
    requires WasAt(l, storage, first, k, d) && Walk(l, storage, first, k) == Some(d)
    ensures !forall i, j :: 0 <= i < j < k + 1 ==> Walk(l, storage, first, i) != Walk(l, storage, first, j)
  {
  }

  lemma WalkStarts(l: Layout, storage: seq<byte>, first: nat)
    ensures Walk(l, storage, first, 0) == Some(first)
  {
  }

  /** A walk along the links ends exactly if it does not come back, while it goes on, to a number it has been at. */
  lemma WalkEndsExactlyIf(l: Layout, storage: seq<byte>, first: nat, c: nat)
    ensures WalkEnds(l, storage, first, c) <==> !ComesBack(l, storage, first, c)
  {
    hide Walk, WalksOn;
    if ComesBack(l, storage, first, c) {
      var i: nat, j: nat :| i < j && Walk(l, storage, first, i) == Walk(l, storage, first, j)
                            && forall k :: 0 < k <= j ==> WalksOn(c, Walk(l, storage, first, k));
      forall k: nat | 0 < k ensures WalksOn(c, Walk(l, storage, first, k)) {
        GoesRound(l, storage, first, c, i, j, k);
      }
    } else if !WalkEnds(l, storage, first, c) {
      var k := EOFThreshold + 2;
      VisitedCount(l, storage, first, c, k);
      MoreThanFit(Visited(l, storage, first, k), first);
    }
  }

  lemma MoreThanFit(s: set<nat>, first: nat)
    requires s <= {first} + Below(EOFThreshold)
    ensures |s| <= EOFThreshold + 1
  {
    SubsetCounts(s, {first} + Below(EOFThreshold));
  }

  lemma {:induction false} SubsetCounts(a: set<nat>, b: set<nat>)
    requires a <= b
    ensures |a| <= |b|
  {
    if a != {} {
      var x :| x in a;
      SubsetCounts(a - {x}, b - {x});
    }
  }

  /** So the search for a predecessor need not end: with two clusters linked to each other it does not, if it starts
      at one and looks for a third. */
  lemma CycleNeverEnds(l: Layout, storage: seq<byte>, a: nat, b: nat, c: nat)
    requires l.Valid() && l.FitsOn(storage) && l.InRange(a) && l.InRange(b) && c !in {a, b}
    requires FatOf(l, storage)[a] == b && FatOf(l, storage)[b] == a
    ensures !WalkEnds(l, storage, a, c)
  {
    assert Walk(l, storage, a, 1) == Some(b);
    assert Walk(l, storage, a, 2) == Some(a) == Walk(l, storage, a, 0);
    WalkEndsExactlyIf(l, storage, a, c);
  }

  /** On a well-formed chain the walk passes the clusters of the chain, and gets to its mark. */
  lemma {:induction false} WalkOfChain(l: Layout, storage: seq<byte>, chain: seq<nat>, k: nat)
    requires l.Valid() && l.FitsOn(storage) && IsChain(FatOf(l, storage), chain) && k <= |chain|
    ensures Walk(l, storage, chain[0], k) == Some(if k < |chain| then chain[k] else EndOfFile)
  {
    if 0 < k {
      WalkOfChain(l, storage, chain, k - 1);
      LinkAt(FatOf(l, storage), chain, k - 1);
    }
  }

  /** What the end of a walk means on a well-formed chain. */
  lemma FoundOnChain(l: Layout, storage: seq<byte>, chain: seq<nat>, c: nat, at: nat)
    requires l.Valid() && l.FitsOn(storage) && IsChain(FatOf(l, storage), chain) && c != chain[0]
    requires forall j :: 0 < j <= at ==> WalksOn(c, Walk(l, storage, chain[0], j))
    ensures at < |chain| && Walk(l, storage, chain[0], at) == Some(chain[at])
    ensures Walk(l, storage, chain[0], at + 1) == Some(if at + 1 < |chain| then chain[at + 1] else EndOfFile)
    ensures at + 1 == |chain| ==> c !in chain
  {
    hide Walk;
    forall j: nat | j <= |chain|
      ensures Walk(l, storage, chain[0], j) == Some(if j < |chain| then chain[j] else EndOfFile)
    {
      WalkOfChain(l, storage, chain, j);
    }
    assert |chain| <= at ==> WalksOn(c, Walk(l, storage, chain[0], |chain|));
    if at + 1 == |chain| {
      forall j | 0 <= j < |chain| ensures chain[j] != c {
        assert 0 < j ==> WalksOn(c, Walk(l, storage, chain[0], j));
      }
    }
  }

  /** How many of the first `n` words from the start of the FAT on are not zero. */
  ghost function NonzeroWords(l: Layout, storage: seq<byte>, n: nat): nat
    requires n == 0 || l.FatOffset(n - 1) + 4 <= |storage|
  {
    if n == 0 then 0
    else NonzeroWords(l, storage, n - 1) + if Entry(l, storage, n - 1) != 0 then 1 else 0
  }

  lemma {:induction false} ZeroingAWord(l: Layout, storage: seq<byte>, c: nat, n: nat)
    requires n == 0 || l.FatOffset(n - 1) + 4 <= |storage|
    requires l.FatOffset(c) + 4 <= |storage|
    ensures var after := Splice(storage, l.FatOffset(c), Encode32(0));
            NonzeroWords(l, after, n) ==
            NonzeroWords(l, storage, n) - if c < n && Entry(l, storage, c) != 0 then 1 else 0
    decreases n
  {
    if 0 < n {
      ZeroingAWord(l, storage, c, n - 1);
      WriteWord(l, storage, c, 0, n - 1);
    }
  }

  class BlockIoAdapter {
    const device: BlockDevice
    const layout: Layout
    var lastEmptyClusterFound: nat

    constructor (d: BlockDevice, l: Layout)
      requires l.Valid() && d.blockSize == l.blockSize && l.FitsOn(d.storage)
      ensures Valid() && device == d && layout == l && lastEmptyClusterFound == 0
    {
      device, layout := d, l;
      lastEmptyClusterFound := 0;
    }

    ghost predicate Valid()
      reads this, device
    {
      && layout.Valid() && device.blockSize == layout.blockSize && layout.FitsOn(device.storage)
      && lastEmptyClusterFound < layout.maximumCluster
    }

    ghost function Fat(): seq<nat>
      requires Valid()
      reads this, device
    {
      FatOf(layout, device.storage)
    }

    ghost function Cluster(c: nat): seq<byte>
      requires Valid() && layout.InRange(c)
      reads this, device
    {
      ClusterOf(layout, device.storage, c)
    }

    /** No cluster's data has changed since the call began. */
    twostate predicate DataUnchanged()
      requires old(Valid()) && Valid()
      reads this, device
    {
      forall c :: layout.InRange(c) ==> Cluster(c) == old(Cluster(c))
    }

    // -------------------------------------------------------------- clusters of data

    method ReadCluster(c: nat) returns (data: Option<seq<byte>>)
      requires Valid() && layout.InRange(c)
      ensures data.Some? ==> data.value == Cluster(c)
      ensures device.reliable ==> data.Some?
    {
      SectorOfCluster(layout, c);
      DataOnDevice(layout, device.storage, c);
      data := device.ReadFromBlock(layout.ClusterSector(c), layout.sectorsPerCluster);
    }

    method WriteCluster(c: nat, data: seq<byte>) returns (ok: bool)
      requires Valid() && layout.InRange(c) && |data| == layout.bytesPerCluster
      modifies device
      ensures Valid() && Fat() == old(Fat())
      ensures !ok ==> device.storage == old(device.storage)
      ensures ok ==> Cluster(c) == data
      ensures forall d :: layout.InRange(d) && d != c ==> Cluster(d) == old(Cluster(d))
      ensures device.reliable ==> ok
    {
      SectorOfCluster(layout, c);
      DataOnDevice(layout, device.storage, c);
      WriteData(layout, device.storage, c, data);
      ok := device.WriteBlock(data, layout.ClusterSector(c), layout.sectorsPerCluster);
    }

    // -------------------------------------------------------------- entries of the FAT

    /** The sector that holds the entry of `c`, and the entry's offset in it in bytes. */
    method LocateEntry(c: nat) returns (sector: nat, offset: nat)
      requires Valid()
      ensures sector == layout.FatSector(c)
      ensures device.BlockStart(sector) + offset == layout.FatOffset(c) && offset + 4 <= layout.blockSize
    {
      SectorOfEntry(layout, c);
      sector := layout.fatLba + c / layout.entriesPerBlock;
      offset := 4 * (c % layout.entriesPerBlock);
    }

    method ReadFatSector(sector: nat) returns (block: Option<seq<byte>>)
      requires Valid()
      ensures block.Some? ==>
                var at := device.BlockStart(sector);
                && at + layout.blockSize <= |device.storage|
                && block.value == device.storage[at..at + layout.blockSize]
      ensures device.reliable && device.BlockStart(sector + 1) <= |device.storage| ==> block.Some?
    {
      block := device.ReadFromBlock(sector, 1);
    }

    method NextClusterInChain(c: nat) returns (next: Result<nat>)
      requires Valid()
      ensures next == Failure(CLUSTER_OUT_OF_RANGE) <==> c < 2 || layout.maximumCluster < c < 0x0FFF_FFF7
      ensures next == Failure(CLUSTER_OUT_OF_RANGE) <==> layout.OutOfRange(c)
      ensures next.Failure? && !layout.OutOfRange(c) ==> next.code == UNABLE_TO_READ_FAT_TABLE_SECTOR
      ensures next.Success? ==>
                layout.FatOffset(c) + 4 <= |device.storage| && next.value == Entry(layout, device.storage, c)
      ensures next.Success? && c < layout.maximumCluster ==> next.value == Fat()[c]
      ensures device.reliable && 2 <= c <= layout.maximumCluster ==> next.Success?
    {
      if layout.OutOfRange(c) {
        return Failure(CLUSTER_OUT_OF_RANGE);
      }
      var sector, offset := LocateEntry(c);
      if c <= layout.maximumCluster {
        SectorOnDevice(layout, device.storage, c);
      }
      var block := ReadFatSector(sector);
      if block.None? {
        return Failure(UNABLE_TO_READ_FAT_TABLE_SECTOR);
      }
      SliceOfSlice(device.storage, device.BlockStart(sector), layout.blockSize, offset, 4);
      return Success(Decode32(block.value[offset..offset + 4]));
    }

    /** The read-modify-write of one sector that replaces the word at the entry of `c`. */
    method RewriteSector(c: nat, word: seq<byte>) returns (r: ResultCode)
      requires Valid() && |word| == 4
      modifies device
      ensures r in {SUCCESS, UNABLE_TO_READ_FAT_TABLE_SECTOR, UNABLE_TO_WRITE_FAT_TABLE_SECTOR}
      ensures r == SUCCESS ==>
                && layout.FatOffset(c) + 4 <= |old(device.storage)|
                && device.storage == Splice(old(device.storage), layout.FatOffset(c), word)
      ensures r != SUCCESS ==> device.storage == old(device.storage)
      ensures device.reliable && c <= layout.maximumCluster ==> r == SUCCESS
    {
      hide Splice, Product;
      var sector, offset := LocateEntry(c);
      if c <= layout.maximumCluster {
        SectorOnDevice(layout, device.storage, c);
      }
      var block := ReadFatSector(sector);
      if block.None? {
        return UNABLE_TO_READ_FAT_TABLE_SECTOR;
      }
      var patched := Splice(block.value, offset, word);
      ghost var before, at := device.storage, device.BlockStart(sector);
      NestedSplice(before, at, layout.blockSize, offset, word);
      assert Splice(before, at, patched) == Splice(before, layout.FatOffset(c), word);
      ProductIs(1, layout.blockSize);
      var ok := device.WriteBlock(patched, sector, 1);
      return if ok then SUCCESS else UNABLE_TO_WRITE_FAT_TABLE_SECTOR;
    }

    /** Sets the entry of `c`. */
    method UpdateFatTableEntry(c: nat, v: nat) returns (r: ResultCode)
      requires Valid() && v < 0x1_0000_0000
      modifies device
      ensures Valid()
      ensures r == CLUSTER_OUT_OF_RANGE <==>
              || c < 2 || layout.maximumCluster < c < 0x0FFF_FFF7
              || (v != 0 && (v < 2 || layout.maximumCluster < v < 0x0FFF_FFF7))
      ensures r in {SUCCESS, CLUSTER_OUT_OF_RANGE, UNABLE_TO_READ_FAT_TABLE_SECTOR, UNABLE_TO_WRITE_FAT_TABLE_SECTOR}
      ensures r == SUCCESS ==>
                && layout.FatOffset(c) + 4 <= |old(device.storage)|
                && device.storage == Splice(old(device.storage), layout.FatOffset(c), Encode32(v))
      ensures r != SUCCESS ==> device.storage == old(device.storage)
      ensures r == SUCCESS && c < layout.maximumCluster ==>
                Fat() == old(Fat())[c := v] && DataUnchanged()
      ensures r == SUCCESS && (c < EntriesBeforeData(layout) || layout.ClusterOffset(layout.maximumCluster)
                                                                <= layout.FatOffset(c)) ==>
                DataRegion(layout, device.storage) == DataRegion(layout, old(device.storage))
      ensures device.reliable && c <= layout.maximumCluster ==> r in {SUCCESS, CLUSTER_OUT_OF_RANGE}
    {
      if layout.OutOfRange(c) || (v != EntryFree && layout.OutOfRange(v)) {
        return CLUSTER_OUT_OF_RANGE;
      }
      if c < layout.maximumCluster {
        WriteEntry(layout, device.storage, c, v);
      }
      if layout.FatOffset(c) + 4 <= |device.storage| {
        EntryWriteKeepsDataExactlyIf(layout, device.storage, c);
      }
      r := RewriteSector(c, Encode32(v));
    }

    /** The cluster before `c` on the way from `first` on, `at` turns from there: the last one of a chain when it is
        the end-of-file mark itself that is asked for.  The walk has to end; `turns` says after how many turns. */
    method PreviousClusterInChain(first: nat, c: nat, ghost turns: nat) returns (previous: Result<nat>, ghost at: nat)
      requires Valid()
      requires layout.OutOfRange(first) || layout.OutOfRange(c) || c == first
               || (0 < turns && !WalksOn(c, Walk(layout, device.storage, first, turns)))
      ensures layout.OutOfRange(first) || layout.OutOfRange(c) ==> previous == Failure(CLUSTER_OUT_OF_RANGE)
      ensures !layout.OutOfRange(first) && c == first ==> previous == Failure(ALREADY_AT_FIRST_CLUSTER)
      ensures !layout.OutOfRange(first) && !layout.OutOfRange(c) && c != first ==>
                && (forall j :: 0 < j <= at ==> WalksOn(c, Walk(layout, device.storage, first, j)))
                && Walk(layout, device.storage, first, at).Some?
                && match previous
                   case Success(p) =>
                     && Walk(layout, device.storage, first, at) == Some(p)
                     && Walk(layout, device.storage, first, at + 1) == Some(c)
                   case Failure(code) =>
                     var next := Walk(layout, device.storage, first, at + 1);
                     || (code == CLUSTER_NOT_PRESENT_IN_CHAIN && next.Some? && next.value != c
                         && 0x0FFF_FFF8 <= next.value)
                     || (code == CLUSTER_OUT_OF_RANGE && next.None?
                         && layout.OutOfRange(Walk(layout, device.storage, first, at).value))
                     || (code == UNABLE_TO_READ_FAT_TABLE_SECTOR
                         && (layout.maximumCluster < Walk(layout, device.storage, first, at).value || !device.reliable))
    {
      hide Entry;
      at := 0;
      if layout.OutOfRange(first) || layout.OutOfRange(c) {
        return Failure(CLUSTER_OUT_OF_RANGE), at;
      }
      if c == first {
        return Failure(ALREADY_AT_FIRST_CLUSTER), at;
      }
      var current := first;
      while true
        invariant at < turns && Walk(layout, device.storage, first, at) == Some(current)
        invariant forall j :: 0 < j <= at ==> WalksOn(c, Walk(layout, device.storage, first, j))
        decreases turns - at
      {
        var next := NextClusterInChain(current);
        if next.Failure? {
          return Failure(next.code), at;
        }
        if next.value == c {
          return Success(current), at;
        }
        current := next.value;
        if current >= EOFThreshold {
          break;
        }
        at := at + 1;
      }
      return Failure(CLUSTER_NOT_PRESENT_IN_CHAIN), at;
    }

    // -------------------------------------------------------------- allocation and release

    /** Where a search that is given no start begins. */
    ghost function SearchStart(): nat
      reads this
    {
      if lastEmptyClusterFound > layout.rootCluster then lastEmptyClusterFound else layout.rootCluster
    }

    /** A search that is given no start finds nothing, or at most `c`: at or behind both the root cluster and the
        highest one found before, no cluster is free. */
    ghost predicate NothingFreeBut(c: nat)
      requires Valid()
      reads this, device
    {
      forall d :: layout.rootCluster <= d < layout.maximumCluster && lastEmptyClusterFound <= d && d != c ==>
        Fat()[d] != 0
    }

    /** The least free cluster at or behind the start given, or, when that is 0, at or behind both the root cluster
        and the highest one found before. */
    method FindNextEmptyCluster(starting: nat) returns (r: Result<nat>)
      requires Valid()
      modifies this`lastEmptyClusterFound
      ensures Valid()
      ensures r == Failure(CLUSTER_OUT_OF_RANGE) <==>
              starting == 1 || layout.maximumCluster < starting < 0x0FFF_FFF7
      ensures r.Failure? ==> r.code in {CLUSTER_OUT_OF_RANGE, UNABLE_TO_READ_FAT_TABLE_SECTOR, DEVICE_FULL}
      ensures r == Failure(DEVICE_FULL) ==>
                forall c :: starting <= c < layout.maximumCluster
                            && (starting == 0 ==> layout.rootCluster <= c && old(lastEmptyClusterFound) <= c) ==>
                              Fat()[c] != 0
      ensures r.Success? ==>
                && layout.InRange(r.value) && Fat()[r.value] == 0
                && starting <= r.value
                && (starting == 0 ==> layout.rootCluster <= r.value && old(lastEmptyClusterFound) <= r.value)
                && forall c :: starting <= c < r.value
                               && (starting == 0 ==> layout.rootCluster <= c && old(lastEmptyClusterFound) <= c) ==>
                                 Fat()[c] != 0
      ensures device.reliable && starting <= layout.maximumCluster && r.Failure? ==>
                r.code in {CLUSTER_OUT_OF_RANGE, DEVICE_FULL}
      ensures lastEmptyClusterFound == if r.Success? && r.value > old(lastEmptyClusterFound) then r.value
                                       else old(lastEmptyClusterFound)
    {
      var start := starting;
      if start == 0 {
        start := if lastEmptyClusterFound > layout.rootCluster then lastEmptyClusterFound else layout.rootCluster;
      }
      if layout.OutOfRange(start) {
        return Failure(CLUSTER_OUT_OF_RANGE);
      }
      r := ScanForFreeEntry(start);
      if r.Success? && r.value > lastEmptyClusterFound {
        lastEmptyClusterFound := r.value;
      }
    }

    /** The scan of the FAT, a sector at a time; the buffer always holds the sector of the current
        index. */
    method ScanForFreeEntry(start: nat) returns (r: Result<nat>)
      requires Valid() && 2 <= start
      ensures r.Failure? ==> r.code in {UNABLE_TO_READ_FAT_TABLE_SECTOR, DEVICE_FULL}
      ensures r == Failure(DEVICE_FULL) ==>
                forall c :: start <= c < layout.maximumCluster ==> Fat()[c] != 0
      ensures r.Success? ==>
                && start <= r.value < layout.maximumCluster && Fat()[r.value] == 0
                && forall c :: start <= c < r.value ==> Fat()[c] != 0
      ensures device.reliable && start <= layout.maximumCluster && r.Failure? ==> r.code == DEVICE_FULL
    {
      hide FatOf, HoldsSector;
      var current: nat := start;
      var block := ReadFatBlock(current);
      if block.None? {
        return Failure(UNABLE_TO_READ_FAT_TABLE_SECTOR);
      }
      while true
        invariant start <= current && block.Some? && HoldsSector(block.value, layout.FatSector(current))
        invariant forall c :: start <= c < current && c < layout.maximumCluster ==> Fat()[c] != 0
        invariant start <= layout.maximumCluster ==> current <= layout.maximumCluster
        decreases layout.maximumCluster - current
      {
        if layout.maximumCluster <= current {
          return Failure(DEVICE_FULL);
        }
        var free := EntryIsFree(block.value, current);
        if free {
          return Success(current);
        }
        current := current + 1;
        var crossed := StartsSector(current);
        if crossed {
          block := ReadFatBlock(current);
          if block.None? {
            return Failure(UNABLE_TO_READ_FAT_TABLE_SECTOR);
          }
        }
      }
    }

    /** Reads the sector that holds the entry of `c`. */
    method ReadFatBlock(c: nat) returns (block: Option<seq<byte>>)
      requires Valid()
      ensures block.Some? ==> HoldsSector(block.value, layout.FatSector(c))
      ensures device.reliable && c <= layout.maximumCluster ==> block.Some?
    {
      if c <= layout.maximumCluster {
        SectorOnDevice(layout, device.storage, c);
      }
      var sector, offset := LocateEntry(c);
      block := ReadFatSector(sector);
    }

    /** Looks up the entry of `c` in the buffer that holds its sector. */
    method EntryIsFree(block: seq<byte>, c: nat) returns (free: bool)
      requires Valid() && HoldsSector(block, layout.FatSector(c)) && c < layout.maximumCluster
      ensures free <==> Fat()[c] == EntryFree
    {
      var sector, offset := LocateEntry(c);
      SliceOfSlice(device.storage, device.BlockStart(sector), layout.blockSize, offset, 4);
      free := Decode32(block[offset..offset + 4]) == EntryFree;
    }

    method StartsSector(c: nat) returns (crossed: bool)
      requires Valid() && 0 < c
      ensures !crossed ==> layout.FatSector(c) == layout.FatSector(c - 1)
    {
      crossed := c % layout.entriesPerBlock == 0;
      if !crossed {
        QuotientSteps(c, layout.entriesPerBlock);
      }
    }

    /** The buffer holds the bytes of the sector. */
    ghost predicate HoldsSector(block: seq<byte>, sector: nat)
      reads this, device
    {
      var at := device.BlockStart(sector);
      at + layout.blockSize <= |device.storage| && block == device.storage[at..at + layout.blockSize]
    }

    /** Sets free the entries met on the way from `first` to an end-of-file mark.  On a well-formed
        chain these are exactly the chain's.  On any FAT at all the walk ends: each turn but the
        last zeroes a word that was not zero. */
    method ReleaseChain(first: nat, ghost chain: seq<nat>) returns (r: ResultCode, ghost done: nat)
      requires Valid()
      modifies device
      ensures Valid()
      ensures old(IsChain(Fat(), chain)) && chain[0] == first ==>
                && r in {SUCCESS, UNABLE_TO_READ_FAT_TABLE_SECTOR, UNABLE_TO_WRITE_FAT_TABLE_SECTOR}
                && done <= |chain| && (r == SUCCESS ==> done == |chain|)
                && Fat() == Released(old(Fat()), chain[..done])
                && DataUnchanged() && (device.reliable ==> r == SUCCESS)
      ensures layout.OutOfRange(first) ==> r == CLUSTER_OUT_OF_RANGE && device.storage == old(device.storage)
    {
      done := 0;
      if layout.OutOfRange(first) {
        return CLUSTER_OUT_OF_RANGE, done;
      }
      ghost var formed := IsChain(Fat(), chain) && chain[0] == first;
      ghost var words := WordsOnDevice();
      var current: nat := first;
      assert formed ==> chain[..0] == [];
      while true
        invariant Valid() && words == WordsOnDevice()
        invariant formed ==> && done < |chain| && current == chain[done]
                             && Fat() == Released(old(Fat()), chain[..done])
                             && DataUnchanged()
        decreases NonzeroWords(layout, device.storage, words), !layout.OutOfRange(current)
      {
        if formed {
          LinkAt(old(Fat()), chain, done);
          StillLinked(old(Fat()), chain, done);
        }
        var step, next := ReleaseOne(current);
        if step != SUCCESS {
          return step, done;
        }
        if formed {
          ReleasedNext(old(Fat()), chain, done);
          done := done + 1;
        }
        current := next;
        if current >= EOFThreshold {
          break;
        }
      }
      return SUCCESS, done;
    }

    /** One turn of the release walk: reads the link and zeroes it. */
    method ReleaseOne(current: nat) returns (r: ResultCode, next: nat)
      requires Valid()
      modifies device
      ensures Valid() && WordsOnDevice() == old(WordsOnDevice())
      ensures layout.OutOfRange(current) ==> r == CLUSTER_OUT_OF_RANGE
      ensures !layout.OutOfRange(current) ==>
                r in {SUCCESS, UNABLE_TO_READ_FAT_TABLE_SECTOR, UNABLE_TO_WRITE_FAT_TABLE_SECTOR}
      ensures r != SUCCESS ==> device.storage == old(device.storage)
      ensures r == SUCCESS ==>
                NonzeroWords(layout, device.storage, WordsOnDevice()) ==
                old(NonzeroWords(layout, device.storage, WordsOnDevice())) - if next != 0 then 1 else 0
      ensures r == SUCCESS && current < layout.maximumCluster ==>
                next == old(Fat())[current] && Fat() == old(Fat())[current := EntryFree] && DataUnchanged()
      ensures device.reliable && 2 <= current < layout.maximumCluster ==> r == SUCCESS
    {
      next := 0;
      var link := NextClusterInChain(current);
      if link.Failure? {
        return link.code, next;
      }
      next := link.value;
      ZeroingAWord(layout, device.storage, current, WordsOnDevice());
      r := UpdateFatTableEntry(current, EntryFree);
    }

    /** How many words lie between the start of the FAT and the end of the device. */
    ghost function WordsOnDevice(): (n: nat)
      requires Valid()
      reads this, device
      ensures n == 0 || layout.FatOffset(n - 1) + 4 <= |device.storage|
    {
      if |device.storage| < layout.FatOffset(0) then 0
      else (|device.storage| - layout.FatOffset(0)) / 4
    }
  }
}
