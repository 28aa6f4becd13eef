/** Multiplication and division by repetition.  Layout arithmetic is stated with these two and
    tied to `*`, `/` and `%` by the lemmas below, which keeps products of unknowns out of every
    proof that only needs to know where things lie. */
module LayoutArithmetic {

  function Product(a: nat, b: nat): nat
  {
    if a == 0 then 0 else Product(a - 1, b) + b
  }

  function Quotient(c: nat, e: nat): nat
    requires 0 < e
  {
    if c < e then 0 else 1 + Quotient(c - e, e)
  }

  lemma {:induction false} ProductIs(a: nat, b: nat)
    ensures Product(a, b) == a * b
  {
    if 0 < a {
      ProductIs(a - 1, b);
    }
  }

  lemma {:induction false} ProductAdds(a: nat, b: nat, n: nat)
    ensures Product(a + b, n) == Product(a, n) + Product(b, n)
  {
    if 0 < a {
      ProductAdds(a - 1, b, n);
    }
  }

  lemma ProductMonotone(a: nat, b: nat, n: nat)
    requires a <= b
    ensures Product(a, n) <= Product(b, n)
    ensures a < b ==> Product(a, n) + n <= Product(b, n)
  {
    ProductAdds(b - a, a, n);
  }

  /** Division with remainder. */
  lemma {:induction false} QuotientIs(c: nat, e: nat)
    requires 0 < e
    ensures Quotient(c, e) == c / e && c % e < e
    ensures c == Product(Quotient(c, e), e) + c % e
  {
    if e <= c {
      QuotientIs(c - e, e);
      DivStep(c, e);
    }
  }

  lemma DivStep(c: nat, e: nat)
    requires 0 < e <= c
    ensures c / e == (c - e) / e + 1 && c % e == (c - e) % e
  {
    var q, r := (c - e) / e, (c - e) % e;
    assert c - e == q * e + r;
    assert c == (q + 1) * e + r;
    DivUnique(c, e, q + 1, r);
  }

  lemma MultipleAtLeast(d: int, e: nat)
    ensures 1 <= d ==> e <= d * e
    ensures d <= -1 ==> d * e <= -(e as int)
  {
    if 1 <= d {
      assert d * e == (d - 1) * e + e;
    } else {
      assert d * e == (d + 1) * e - e;
    }
  }

  lemma DivUnique(c: nat, e: nat, q: nat, r: nat)
    requires 0 < e && c == q * e + r && r < e
    ensures c / e == q && c % e == r
  {
    var d := c / e - q;
    assert c == c / e * e + c % e;
    assert d * e == c / e * e - q * e;
    MultipleAtLeast(d, e);
  }

  lemma {:induction false} QuotientOfProduct(n: nat, e: nat)
    requires 0 < e
    ensures Quotient(Product(n, e), e) == n
  {
    if 0 < n {
      QuotientOfProduct(n - 1, e);
    }
  }

  lemma {:induction false} QuotientMonotone(a: nat, b: nat, e: nat)
    requires 0 < e && a <= b
    ensures Quotient(a, e) <= Quotient(b, e)
  {
    if e <= a {
      QuotientMonotone(a - e, b - e, e);
    }
  }

  /** Counting on by one stays in the same block of `e` unless a new block starts. */
  lemma {:induction false} QuotientSteps(c: nat, e: nat)
    requires 0 < e && 0 < c && c % e != 0
    ensures Quotient(c, e) == Quotient(c - 1, e)
  {
    if e < c {
      DivStep(c, e);
      QuotientSteps(c - e, e);
    } else if c == e {
      DivUnique(e, e, 1, 0);
    }
  }
}

/** The block device: an array of blocks, read and written whole, where any operation may fail. */
module BlockDevices {
  import opened Memory
  import opened LayoutArithmetic

  /** `s` with the stretch at `at` replaced by `d`. */
  function Splice<T>(s: seq<T>, at: nat, d: seq<T>): (r: seq<T>)
    requires at + |d| <= |s|
    ensures |r| == |s|
  {
    s[..at] + d + s[at + |d|..]
  }

  lemma SpliceSlice<T>(s: seq<T>, at: nat, d: seq<T>, lo: nat, hi: nat)
    requires at + |d| <= |s| && lo <= hi <= |s|
    ensures hi <= at || at + |d| <= lo ==> Splice(s, at, d)[lo..hi] == s[lo..hi]
    ensures lo <= at && at + |d| <= hi ==> Splice(s, at, d)[lo..hi] == Splice(s[lo..hi], at - lo, d)
    ensures Splice(s, at, d)[at..at + |d|] == d
  {
  }

  lemma NestedSplice<T>(s: seq<T>, at: nat, n: nat, offset: nat, d: seq<T>)
    requires at + n <= |s| && offset + |d| <= n
    ensures Splice(s, at, Splice(s[at..at + n], offset, d)) == Splice(s, at + offset, d)
  {
  }

  class BlockDevice {
    const blockSize: nat
    // Whether operations on blocks that exist always succeed.
    const reliable: bool
    var storage: seq<byte>

    constructor (size: nat, faultless: bool, bytes: seq<byte>)
      ensures blockSize == size && reliable == faultless && storage == bytes
    {
      blockSize, reliable := size, faultless;
      storage := bytes;
    }

    /** The byte at which block `n` starts. */
    function BlockStart(n: nat): nat
    {
      Product(n, blockSize)
    }

    /** Reads whole blocks; fails beyond the end of the device, and may fail anywhere else unless the
        device is reliable. */
    method ReadFromBlock(block: nat, count: nat) returns (data: Option<seq<byte>>)
      ensures data.Some? ==> BlockStart(block) <= BlockStart(block + count) <= |storage|
      ensures data.Some? ==> data.value == storage[BlockStart(block)..BlockStart(block + count)]
      ensures reliable && BlockStart(block + count) <= |storage| ==> data.Some?
    {
      var faulty: bool := *;
      if (faulty && !reliable) || BlockStart(block + count) > |storage| {
        return None;
      }
      ProductMonotone(block, block + count, blockSize);
      return Some(storage[BlockStart(block)..BlockStart(block + count)]);
    }

    /** Writes whole blocks; a write that fails leaves the device as it was. */
    method WriteBlock(data: seq<byte>, block: nat, count: nat) returns (ok: bool)
      requires |data| == Product(count, blockSize)
      modifies this
      ensures ok ==> BlockStart(block) + |data| <= |old(storage)|
      ensures storage == if ok then Splice(old(storage), BlockStart(block), data) else old(storage)
      ensures reliable && BlockStart(block + count) <= |old(storage)| ==> ok
    {
      var faulty: bool := *;
      if (faulty && !reliable) || BlockStart(block + count) > |storage| {
        return false;
      }
      ProductAdds(block, count, blockSize);
      storage := Splice(storage, BlockStart(block), data);
      return true;
    }
  }
}

/** Where the FAT and the clusters lie on the device, and the map that the FAT's bytes stand for. */
module FatLayout {
  import opened Memory
  import opened LayoutArithmetic
  import opened BlockDevices

  const EntryFree: nat := 0
  const EntryDefective: nat := 0x0FFF_FFF7
  const EOFThreshold: nat := 0x0FFF_FFF8
  const EndOfFile: nat := 0x0FFF_FFFF

  // ---------------------------------------------------------------- little-endian words

  function Encode32(v: nat): (s: seq<byte>)
    requires v < 0x1_0000_0000
    ensures |s| == 4
  {
    [v % 0x100, v / 0x100 % 0x100, v / 0x1_0000 % 0x100, v / 0x100_0000]
  }

  function Decode32(s: seq<byte>): (v: nat)
    requires |s| == 4
    ensures v < 0x1_0000_0000
  {
    s[0] as int + 0x100 * s[1] as int + 0x1_0000 * s[2] as int + 0x100_0000 * s[3] as int
  }

  lemma DecodeEncode32(v: nat)
    requires v < 0x1_0000_0000
    ensures Decode32(Encode32(v)) == v
  {
    var a, b := v / 0x100, v / 0x1_0000;
    assert v == 0x100 * a + v % 0x100;
    assert a == 0x100 * b + a % 0x100;
    assert b == 0x100 * (v / 0x100_0000) + b % 0x100;
  }

  // ---------------------------------------------------------------- the layout

  /** The numbers read at mount time, and the three the adapter derives from them. */
  datatype Layout = Layout(
    blockSize: nat, sectorsPerCluster: nat, sectorsPerFat: nat, fatLba: nat, dataLba: nat,
    rootCluster: nat, entriesPerBlock: nat, maximumCluster: nat, bytesPerCluster: nat)
  {
    predicate InRange(c: nat) { 2 <= c < maximumCluster }

    /** The range check the code makes.  It lets through the first index past the FAT and every
        value from the bad-cluster marker up. */
    predicate OutOfRange(c: nat)
    {
      c < 2 || (maximumCluster < c < EntryDefective)
    }

    function FatSector(c: nat): nat
      requires 0 < entriesPerBlock
    {
      fatLba + Quotient(c, entriesPerBlock)
    }

    function ClusterSector(c: nat): nat
      requires 2 <= c
    {
      Product(c - 2, sectorsPerCluster) + dataLba
    }

    /** The byte at which the FAT entry of `c` starts. */
    function FatOffset(c: nat): nat { Product(fatLba, blockSize) + 4 * c }

    /** The byte at which the data of cluster `c` starts. */
    function ClusterOffset(c: nat): nat
      requires 2 <= c
    {
      Product(dataLba, blockSize) + Product(c - 2, bytesPerCluster)
    }

    /** A block holds whole FAT entries and whole directory entries, the data region lies behind
        the FAT, cluster numbers stay clear of the special values, and block numbers fit 32 bits. */
    ghost predicate Valid()
    {
      && 0 < blockSize && blockSize % 32 == 0 && 0 < sectorsPerCluster && 0 < sectorsPerFat
      && blockSize == 4 * entriesPerBlock
      && maximumCluster == Product(sectorsPerFat, entriesPerBlock)
      && bytesPerCluster == Product(sectorsPerCluster, blockSize)
      && fatLba + sectorsPerFat <= dataLba
      && 2 < maximumCluster < EntryDefective
      && ClusterSector(maximumCluster) < 0x1_0000_0000
      && InRange(rootCluster)
    }

    /** The device holds the data of every cluster below the maximum. */
    ghost predicate FitsOn(storage: seq<byte>)
      requires Valid()
    {
      ClusterOffset(maximumCluster) <= |storage|
    }
  }

  /** The FAT entry of `c`. */
  function Entry(l: Layout, storage: seq<byte>, c: nat): (v: nat)
    requires l.FatOffset(c) + 4 <= |storage|
    ensures v < 0x1_0000_0000
  {
    Decode32(storage[l.FatOffset(c)..l.FatOffset(c) + 4])
  }

  /** The 32-bit word at byte `at`: four bytes, the least significant first. */
  ghost function WordAt(s: seq<byte>, at: nat): int
    requires at + 4 <= |s|
  {
    s[at] as int + 0x100 * s[at + 1] as int + 0x1_0000 * s[at + 2] as int + 0x100_0000 * s[at + 3] as int
  }

  /** The byte at which the entry of a number starts, and that at which the data of a cluster start. */
  ghost function EntryPlace(l: Layout, c: nat): nat
  {
    l.fatLba * l.blockSize + 4 * c
  }

  ghost function ClusterPlace(l: Layout, c: nat): nat
    requires 2 <= c
  {
    (l.dataLba + (c - 2) * l.sectorsPerCluster) * l.blockSize
  }

  /** Where the entry of a number lies, which of its bytes weighs what, and that setting it changes no other byte. */
  lemma EntryBytes(l: Layout, storage: seq<byte>, c: nat, v: nat)
    requires EntryPlace(l, c) + 4 <= |storage| && v < 0x1_0000_0000
    ensures l.FatOffset(c) == EntryPlace(l, c) && Entry(l, storage, c) == WordAt(storage, EntryPlace(l, c))
    ensures var at := EntryPlace(l, c);
            var after := Splice(storage, at, Encode32(v));
            && WordAt(after, at) == v
            && forall i :: 0 <= i < |storage| && !(at <= i < at + 4) ==> after[i] == storage[i]
  {
    ProductIs(l.fatLba, l.blockSize);
    var at := EntryPlace(l, c);
    assert storage[at..at + 4] == [storage[at], storage[at + 1], storage[at + 2], storage[at + 3]];
    WordWritten(storage, at, v);
  }

  /** Where the data of a cluster lie, and how many bytes. */
  lemma ClusterBytes(l: Layout, storage: seq<byte>, c: nat)
    requires l.Valid() && l.FitsOn(storage) && l.InRange(c)
    ensures l.bytesPerCluster == l.sectorsPerCluster * l.blockSize
    ensures ClusterPlace(l, c) + l.bytesPerCluster <= |storage|
    ensures ClusterOf(l, storage, c) == storage[ClusterPlace(l, c)..ClusterPlace(l, c) + l.bytesPerCluster]
  {
    hide ClusterPlace, Product;
    ProductIs(l.sectorsPerCluster, l.blockSize);
    ClusterPlaceIs(l, c);
    DataOnDevice(l, storage, c);
  }

  lemma ClusterPlaceIs(l: Layout, c: nat)
    requires l.Valid() && 2 <= c
    ensures l.ClusterOffset(c) == ClusterPlace(l, c)
  {
    SectorOfCluster(l, c);
    ProductIs(l.ClusterSector(c), l.blockSize);
    ProductIs(c - 2, l.sectorsPerCluster);
  }

  /** Written as a word, a number lies in four bytes, and every other byte stays. */
  lemma WordWritten(s: seq<byte>, at: nat, v: nat)
    requires at + 4 <= |s| && v < 0x1_0000_0000
    ensures var after := Splice(s, at, Encode32(v));
            && WordAt(after, at) == v
            && forall i :: 0 <= i < |s| && !(at <= i < at + 4) ==> after[i] == s[i]
  {
  }

  /** The FAT lies before the data, and every entry of an in-range cluster lies in the FAT. */
  lemma FatBeforeData(l: Layout, c: nat)
    requires l.Valid() && c < l.maximumCluster
    ensures l.FatOffset(c) + 4 <= Product(l.dataLba, l.blockSize)
  {
    ProductMonotone(l.fatLba + l.sectorsPerFat, l.dataLba, l.blockSize);
    ProductAdds(l.fatLba, l.sectorsPerFat, l.blockSize);
    FourTimes(l.sectorsPerFat, l.entriesPerBlock);
  }

  lemma FourTimes(n: nat, e: nat)
    ensures Product(n, 4 * e) == 4 * Product(n, e)
  {
    ProductIs(n, 4 * e);
    ProductIs(n, e);
    assert n * (4 * e) == 4 * (n * e);
  }

  lemma DataOnDevice(l: Layout, storage: seq<byte>, c: nat)
    requires l.Valid() && l.FitsOn(storage) && l.InRange(c)
    ensures Product(l.dataLba, l.blockSize) <= l.ClusterOffset(c)
    ensures l.ClusterOffset(c) + l.bytesPerCluster <= |storage|
  {
    ProductMonotone(c - 2, l.maximumCluster - 2, l.bytesPerCluster);
  }

  /** Different clusters occupy different bytes. */
  lemma ClustersDisjoint(l: Layout, c: nat, d: nat)
    requires l.Valid() && 2 <= c < d
    ensures l.ClusterOffset(c) + l.bytesPerCluster <= l.ClusterOffset(d)
  {
    ProductMonotone(c - 2, d - 2, l.bytesPerCluster);
  }

  /** An entry's place in its sector is its place in the FAT. */
  lemma SectorOfEntry(l: Layout, c: nat)
    requires l.Valid()
    ensures var offset := 4 * (c % l.entriesPerBlock);
            && Product(l.FatSector(c), l.blockSize) + offset == l.FatOffset(c)
            && offset + 4 <= l.blockSize
    ensures l.FatSector(c) == l.fatLba + c / l.entriesPerBlock
    ensures Product(l.FatSector(c) + 1, l.blockSize) == Product(l.FatSector(c), l.blockSize) + l.blockSize
  {
    QuotientIs(c, l.entriesPerBlock);
    ProductAdds(l.fatLba, Quotient(c, l.entriesPerBlock), l.blockSize);
    FourTimes(Quotient(c, l.entriesPerBlock), l.entriesPerBlock);
  }

  /** The sectors of the FAT, and the one behind them, are on the device. */
  lemma SectorOnDevice(l: Layout, storage: seq<byte>, c: nat)
    requires l.Valid() && l.FitsOn(storage) && c <= l.maximumCluster
    ensures Product(l.FatSector(c) + 1, l.blockSize) <= |storage|
  {
    QuotientIs(c, l.entriesPerBlock);
    QuotientIs(l.maximumCluster, l.entriesPerBlock);
    QuotientOfProduct(l.sectorsPerFat, l.entriesPerBlock);
    QuotientMonotone(c, l.maximumCluster, l.entriesPerBlock);
    ProductMonotone(l.FatSector(c) + 1, l.dataLba + 1, l.blockSize);
    FirstBlockOfData(l);
  }

  /** The data region holds at least one block. */
  lemma FirstBlockOfData(l: Layout)
    requires l.Valid()
    ensures Product(l.dataLba + 1, l.blockSize) <= l.ClusterOffset(l.maximumCluster)
  {
    ProductMonotone(1, l.sectorsPerCluster, l.blockSize);
    ProductMonotone(1, l.maximumCluster - 2, l.bytesPerCluster);
  }

  /** A cluster's sectors are its bytes. */
  lemma SectorOfCluster(l: Layout, c: nat)
    requires l.Valid() && 2 <= c
    ensures Product(l.ClusterSector(c), l.blockSize) == l.ClusterOffset(c)
    ensures Product(l.ClusterSector(c) + l.sectorsPerCluster, l.blockSize) == l.ClusterOffset(c) + l.bytesPerCluster
    ensures Product(l.sectorsPerCluster, l.blockSize) == l.bytesPerCluster
  {
    ProductAdds(Product(c - 2, l.sectorsPerCluster), l.dataLba, l.blockSize);
    ProductIs(Product(c - 2, l.sectorsPerCluster), l.blockSize);
    ProductIs(c - 2, l.sectorsPerCluster);
    ProductIs(c - 2, l.bytesPerCluster);
    ProductIs(l.sectorsPerCluster, l.blockSize);
    Associates(c - 2, l.sectorsPerCluster, l.blockSize);
    ProductAdds(l.ClusterSector(c), l.sectorsPerCluster, l.blockSize);
  }

  lemma Associates(a: nat, b: nat, c: nat)
    ensures (a * b) * c == a * (b * c)
  {
  }

  // ---------------------------------------------------------------- the map and the data

  /** The FAT as a map from cluster numbers to entries. */
  ghost function FatOf(l: Layout, storage: seq<byte>): (fat: seq<nat>)
    requires l.Valid() && l.FitsOn(storage)
    ensures |fat| == l.maximumCluster
    ensures forall c :: 0 <= c < |fat| ==>
              l.FatOffset(c) + 4 <= |storage| && fat[c] == Entry(l, storage, c)
  {
    EveryEntryOnDevice(l, storage);
    seq(l.maximumCluster, c requires 0 <= c < l.maximumCluster => Entry(l, storage, c))
  }

  lemma EveryEntryOnDevice(l: Layout, storage: seq<byte>)
    requires l.Valid() && l.FitsOn(storage)
    ensures forall c :: 0 <= c < l.maximumCluster ==> l.FatOffset(c) + 4 <= |storage|
  {
    forall c: nat | c < l.maximumCluster ensures l.FatOffset(c) + 4 <= |storage| {
      FatBeforeData(l, c);
    }
  }

  ghost function ClusterOf(l: Layout, storage: seq<byte>, c: nat): (data: seq<byte>)
    requires l.Valid() && l.FitsOn(storage) && l.InRange(c)
    ensures |data| == l.bytesPerCluster
  {
    DataOnDevice(l, storage, c);
    storage[l.ClusterOffset(c)..l.ClusterOffset(c) + l.bytesPerCluster]
  }

  /** Writing four bytes at an entry's offset changes that entry of the map, no other, and no data. */
  lemma WriteEntry(l: Layout, storage: seq<byte>, c: nat, v: nat)
    requires l.Valid() && l.FitsOn(storage) && c < l.maximumCluster && v < 0x1_0000_0000
    ensures l.FatOffset(c) + 4 <= |storage|
    ensures var after := Splice(storage, l.FatOffset(c), Encode32(v));
            && l.FitsOn(after)
            && FatOf(l, after) == FatOf(l, storage)[c := v]
            && forall d :: l.InRange(d) ==> ClusterOf(l, after, d) == ClusterOf(l, storage, d)
  {
    EveryEntryOnDevice(l, storage);
    var after := Splice(storage, l.FatOffset(c), Encode32(v));
    DecodeEncode32(v);
    forall d: nat | d < l.maximumCluster
      ensures FatOf(l, after)[d] == FatOf(l, storage)[c := v][d]
    {
      SpliceSlice(storage, l.FatOffset(c), Encode32(v), l.FatOffset(d), l.FatOffset(d) + 4);
    }
    forall d | l.InRange(d) ensures ClusterOf(l, after, d) == ClusterOf(l, storage, d) {
      FatBeforeData(l, c);
      DataOnDevice(l, storage, d);
      SpliceSlice(storage, l.FatOffset(c), Encode32(v), l.ClusterOffset(d), l.ClusterOffset(d) + l.bytesPerCluster);
    }
  }

  // ---------------------------------------------------------------- numbers past the FAT

  /** The bytes of all clusters. */
  ghost function DataRegion(l: Layout, storage: seq<byte>): (data: seq<byte>)
    requires l.Valid() && l.FitsOn(storage)
    ensures |data| == l.ClusterOffset(l.maximumCluster) - l.ClusterOffset(2)
  {
    ClustersDisjoint(l, 2, l.maximumCluster);
    storage[l.ClusterOffset(2)..l.ClusterOffset(l.maximumCluster)]
  }

  /** The number of entries there is room for between the start of the FAT and the data. */
  function EntriesBeforeData(l: Layout): (n: nat)
    requires l.Valid()
  {
    Product(l.dataLba - l.fatLba, l.entriesPerBlock)
  }

  /** The entry of a number lies before the data, or else wholly in it or behind it. */
  lemma EntryBeforeData(l: Layout, c: nat)
    requires l.Valid()
    ensures if c < EntriesBeforeData(l) then l.FatOffset(c) + 4 <= l.ClusterOffset(2)
            else l.ClusterOffset(2) <= l.FatOffset(c)
    ensures l.maximumCluster <= EntriesBeforeData(l)
    ensures l.maximumCluster < EntriesBeforeData(l) <==> l.fatLba + l.sectorsPerFat < l.dataLba
  {
    var blocks := l.dataLba - l.fatLba;
    ProductAdds(l.fatLba, blocks, l.blockSize);
    FourTimes(blocks, l.entriesPerBlock);
    ProductMonotone(l.sectorsPerFat, blocks, l.entriesPerBlock);
    if l.fatLba + l.sectorsPerFat == l.dataLba {
      assert blocks == l.sectorsPerFat;
    }
  }

  /** Writing an entry leaves the data alone, whatever is written over whatever was there, exactly if the
      entry lies before the data or behind it.  The range check asks for neither. */
  lemma EntryWriteKeepsDataExactlyIf(l: Layout, storage: seq<byte>, c: nat)
    requires l.Valid() && l.FitsOn(storage) && l.FatOffset(c) + 4 <= |storage|
    ensures (forall v :: 0 <= v < 0x1_0000_0000 ==>
               DataRegion(l, Splice(storage, l.FatOffset(c), Encode32(v))) == DataRegion(l, storage))
            <==> c < EntriesBeforeData(l) || l.ClusterOffset(l.maximumCluster) <= l.FatOffset(c)
  {
    hide Product;
    EntryBeforeData(l, c);
    ClustersDisjoint(l, 2, l.maximumCluster);
    var at, lo, hi := l.FatOffset(c), l.ClusterOffset(2), l.ClusterOffset(l.maximumCluster);
    if lo <= at < hi {
      var v := if storage[at] == 0 then 1 else 0;
      assert Splice(storage, at, Encode32(v))[lo..hi][at - lo] == Encode32(v)[0] != storage[lo..hi][at - lo];
      assert DataRegion(l, Splice(storage, at, Encode32(v))) != DataRegion(l, storage);
    } else {
      forall v | 0 <= v < 0x1_0000_0000
        ensures DataRegion(l, Splice(storage, at, Encode32(v))) == DataRegion(l, storage)
      {
        SpliceSlice(storage, at, Encode32(v), lo, hi);
      }
    }
  }

  /** The range check lets the first number past the FAT through.  Where the data follows the FAT at once, its
      entry is the first word of the data, and setting it overwrites the start of cluster 2. */
  lemma MaximumOverwritesData(l: Layout, storage: seq<byte>, v: nat)
    requires l.Valid() && l.FitsOn(storage) && v < 0x1_0000_0000 && l.dataLba == l.fatLba + l.sectorsPerFat
    ensures !l.OutOfRange(l.maximumCluster) && l.FatOffset(l.maximumCluster) == l.ClusterOffset(2)
    ensures 4 <= l.bytesPerCluster && l.ClusterOffset(2) + l.bytesPerCluster <= |storage|
    ensures var after := Splice(storage, l.FatOffset(l.maximumCluster), Encode32(v));
            ClusterOf(l, after, 2) == Splice(ClusterOf(l, storage, 2), 0, Encode32(v))
  {
    ProductAdds(l.fatLba, l.sectorsPerFat, l.blockSize);
    FourTimes(l.sectorsPerFat, l.entriesPerBlock);
    ProductMonotone(1, l.sectorsPerCluster, l.blockSize);
    DataOnDevice(l, storage, 2);
    var at := l.ClusterOffset(2);
    SpliceSlice(storage, at, Encode32(v), at, at + l.bytesPerCluster);
  }

  /** There is such a layout. */
  lemma SomeLayoutHasNoGap()
    ensures var l := Layout(512, 1, 1, 32, 33, 2, 128, 128, 512); l.Valid() && l.dataLba == l.fatLba + l.sectorsPerFat
  {
    ProductIs(1, 128);
    ProductIs(1, 512);
    ProductIs(126, 1);
  }

  /** Writing a cluster's bytes changes that cluster, no other, and no FAT entry. */
  lemma WriteData(l: Layout, storage: seq<byte>, c: nat, data: seq<byte>)
    requires l.Valid() && l.FitsOn(storage) && l.InRange(c) && |data| == l.bytesPerCluster
    ensures l.ClusterOffset(c) + |data| <= |storage|
    ensures var after := Splice(storage, l.ClusterOffset(c), data);
            && l.FitsOn(after)
            && FatOf(l, after) == FatOf(l, storage)
            && ClusterOf(l, after, c) == data
            && forall d :: l.InRange(d) && d != c ==> ClusterOf(l, after, d) == ClusterOf(l, storage, d)
  {
    DataOnDevice(l, storage, c);
    var after := Splice(storage, l.ClusterOffset(c), data);
    EveryEntryOnDevice(l, storage);
    forall d: nat | d < l.maximumCluster ensures FatOf(l, after)[d] == FatOf(l, storage)[d] {
      FatBeforeData(l, d);
      SpliceSlice(storage, l.ClusterOffset(c), data, l.FatOffset(d), l.FatOffset(d) + 4);
    }
    forall d | l.InRange(d) && d != c ensures ClusterOf(l, after, d) == ClusterOf(l, storage, d) {
      DataOnDevice(l, storage, d);
      if c < d {
        ClustersDisjoint(l, c, d);
      } else {
        ClustersDisjoint(l, d, c);
      }
      SpliceSlice(storage, l.ClusterOffset(c), data, l.ClusterOffset(d), l.ClusterOffset(d) + l.bytesPerCluster);
    }
    SpliceSlice(storage, l.ClusterOffset(c), data, 0, 0);
  }
}
