/** Long file names: cut into entries of thirteen characters, kept in reverse order, and put together
    again. */
module LongNames {
  import opened Memory
  import opened EntryFields
  import opened DirectorySlots

  const CharactersInEntry: nat := 13
  const MaxFilenameLength: nat := 255

  predicate IsPrintable(c: char)
  {
    0x20 <= c as int <= 0x7E
  }

  ghost predicate AllPrintable(s: string)
  {
    forall i :: 0 <= i < |s| ==> 32 <= s[i] as int <= 126
  }

  /** What is shown of a text: an underscore for what is not printable. */
  ghost function Shown(s: string): (r: string)
    ensures |r| == |s|
    ensures r == s <==> AllPrintable(s)
  {
    var r := seq(|s|, i requires 0 <= i < |s| => if 32 <= s[i] as int <= 126 then s[i] else '_');
    assert AllPrintable(s) ==> forall i :: 0 <= i < |s| ==> r[i] == s[i];
    assert r == s ==> forall i :: 0 <= i < |s| ==> s[i] == r[i];
    r
  }

  /** A 16-bit character as stored in an entry. */
  type Unit = u: nat | u < 0x1_0000

  /** What an entry stores for the `k`th character of a fragment: the character, the null behind the
      last one, padding after that. */
  function UnitFor(fragment: string, k: nat): Unit
    requires forall i :: 0 <= i < |fragment| ==> fragment[i] as int < 0x100
  {
    if k < |fragment| then fragment[k] as int else if k == |fragment| then 0x0000 else 0xFFFF
  }

  function ToASCII(u: Unit): char
  {
    if u == 0x0000 || u == 0xFFFF then '\0'
    else if 0x20 <= u <= 0x7E then u as char
    else '_'
  }

  // ---------------------------------------------------------------- one entry

  /** The three blocks an entry keeps its characters in. */
  datatype Blocks = Blocks(name1: seq<Unit>, name2: seq<Unit>, name3: seq<Unit>)
  {
    predicate Valid() { |name1| == 5 && |name2| == 6 && |name3| == 2 }

    function At(k: nat): Unit
      requires Valid() && k < CharactersInEntry
    {
      if k < 5 then name1[k] else if k < 11 then name2[k - 5] else name3[k - 11]
    }
  }

  function Pack(us: seq<Unit>): (bytes: seq<byte>)
    ensures |bytes| == 2 * |us|
  {
    if us == [] then [] else Encode16(us[0]) + Pack(us[1..])
  }

  /** The entry's 32 bytes. */
  function Packed(sequence: nat, first: bool, checksum: byte, b: Blocks): Slot
    requires b.Valid()
  {
    [sequence % 32 + if first then 64 else 0] + Pack(b.name1)
    + [LongFilenameAttribute, 0x00, checksum] + Pack(b.name2) + [0, 0] + Pack(b.name3)
  }

  function UnitAt(s: Slot, offset: nat): Unit
    requires offset + 2 <= EntrySize
  {
    Decode16(s[offset..offset + 2])
  }

  /** The blocks read back from the bytes. */
  function BlocksIn(s: Slot): (b: Blocks)
    ensures b.Valid()
  {
    Blocks(seq(5, i requires 0 <= i < 5 => UnitAt(s, 1 + 2 * i)),
           seq(6, i requires 0 <= i < 6 => UnitAt(s, 14 + 2 * i)),
           seq(2, i requires 0 <= i < 2 => UnitAt(s, 28 + 2 * i)))
  }

  lemma {:induction false} PackedAt(us: seq<Unit>, k: nat)
    requires k < |us|
    ensures Pack(us)[2 * k..2 * k + 2] == Encode16(us[k])
  {
    if 0 < k {
      PackedAt(us[1..], k - 1);
      assert Pack(us)[2 * k..2 * k + 2] == Pack(us[1..])[2 * (k - 1)..2 * (k - 1) + 2];
    }
  }

  /** Packing loses nothing, and makes a long-name slot with the right flag. */
  lemma PackedHolds(sequence: nat, first: bool, checksum: byte, b: Blocks)
    requires b.Valid() && sequence % 32 != 0
    ensures BlocksIn(Packed(sequence, first, checksum, b)) == b
    ensures Packed(sequence, first, checksum, b)[0] as int == sequence % 32 + if first then 64 else 0
    ensures IsLong(Packed(sequence, first, checksum, b))
    ensures IsFirstLong(Packed(sequence, first, checksum, b)) == first
  {
    var s := Packed(sequence, first, checksum, b);
    forall i | 0 <= i < 5 ensures UnitAt(s, 1 + 2 * i) == b.name1[i] {
      PackedAt(b.name1, i);
      assert s[1 + 2 * i..1 + 2 * i + 2] == Pack(b.name1)[2 * i..2 * i + 2];
      DecodeEncode16(b.name1[i]);
    }
    forall i | 0 <= i < 6 ensures UnitAt(s, 14 + 2 * i) == b.name2[i] {
      PackedAt(b.name2, i);
      assert s[14 + 2 * i..14 + 2 * i + 2] == Pack(b.name2)[2 * i..2 * i + 2];
      DecodeEncode16(b.name2[i]);
    }
    forall i | 0 <= i < 2 ensures UnitAt(s, 28 + 2 * i) == b.name3[i] {
      PackedAt(b.name3, i);
      assert s[28 + 2 * i..28 + 2 * i + 2] == Pack(b.name3)[2 * i..2 * i + 2];
      DecodeEncode16(b.name3[i]);
    }
  }

  /** Fills the blocks from a fragment: the characters, the null if there is room, and padding. */
  method FillBlocks(fragment: string, garbage: Blocks) returns (b: Blocks)
    requires |fragment| <= CharactersInEntry && garbage.Valid()
    requires forall i :: 0 <= i < |fragment| ==> fragment[i] as int < 0x100
    ensures b.Valid()
    ensures forall k :: 0 <= k < CharactersInEntry ==> b.At(k) == UnitFor(fragment, k)
  {
    b := garbage;
    if |fragment| < CharactersInEntry {
      b := Blocks([0xFFFF, 0xFFFF, 0xFFFF, 0xFFFF, 0xFFFF],
                  [0xFFFF, 0xFFFF, 0xFFFF, 0xFFFF, 0xFFFF, 0xFFFF],
                  [0xFFFF, 0xFFFF]);
    }
    var block, offset := 0, 0;
    var count := if |fragment| + 1 < CharactersInEntry then |fragment| + 1 else CharactersInEntry;
    for i := 0 to count
      invariant b.Valid() && 0 <= block <= 2 && 0 <= offset
      invariant i == if block == 0 then offset else if block == 1 then 5 + offset else 11 + offset
      invariant offset < 5 || (block == 1 && offset < 6)
      invariant block == 2 ==> offset <= 2
      invariant forall k :: 0 <= k < i ==> b.At(k) == UnitFor(fragment, k)
      invariant |fragment| < CharactersInEntry ==> forall k :: i <= k < CharactersInEntry ==> b.At(k) == 0xFFFF
    {
      var c := UnitFor(fragment, i);
      ghost var before := b;
      if block == 0 {
        b := b.(name1 := b.name1[offset := c]);
        offset := offset + 1;
        if offset >= 5 {
          block, offset := 1, 0;
        }
      } else if block == 1 {
        b := b.(name2 := b.name2[offset := c]);
        offset := offset + 1;
        if offset >= 6 {
          block, offset := 2, 0;
        }
      } else {
        b := b.(name3 := b.name3[offset := c]);
        offset := offset + 1;
      }
      assert forall k :: 0 <= k < CharactersInEntry ==> b.At(k) == if k == i then c else before.At(k);
    }
  }

  /** The entry holds the fragment. */
  ghost predicate Holds(s: Slot, fragment: string)
  {
    && |fragment| <= CharactersInEntry
    && (forall i :: 0 <= i < |fragment| ==> fragment[i] as int < 0x100)
    && (forall k :: 0 <= k < CharactersInEntry ==> BlocksIn(s).At(k) == UnitFor(fragment, k))
  }

  /** A new long-name entry; `garbage` is what its blocks hold before they are filled. */
  method MakeLongEntry(fragment: string, sequence: nat, first: bool, checksum: byte, garbage: Blocks)
    returns (s: Slot)
    requires |fragment| <= CharactersInEntry && garbage.Valid() && 1 <= sequence < 32
    requires forall i :: 0 <= i < |fragment| ==> fragment[i] as int < 0x100
    ensures Holds(s, fragment) && IsLong(s) && IsFirstLong(s) == first
    ensures s[0] as int == sequence + if first then 64 else 0
    ensures s[11] == 0x0F && s[13] == checksum && s[12] == s[26] == s[27] == 0
  {
    var b := FillBlocks(fragment, garbage);
    s := Packed(sequence, first, checksum, b);
    PackedHolds(sequence, first, checksum, b);
  }

  // ---------------------------------------------------------------- reading the name back

  /** The text an entry holds from its `k`th character on: up to the first null or padding. */
  ghost function TextFrom(b: Blocks, k: nat): string
    requires b.Valid() && k <= CharactersInEntry
    decreases CharactersInEntry - k
  {
    if k == 13 || b.At(k) == 0x0000 || b.At(k) == 0xFFFF then ""
    else [if 32 <= b.At(k) <= 126 then b.At(k) as char else '_'] + TextFrom(b, k + 1)
  }

  lemma {:induction false} TextOfFragment(s: Slot, fragment: string, k: nat)
    requires Holds(s, fragment) && '\0' !in fragment && k <= |fragment|
    ensures TextFrom(BlocksIn(s), k) == Shown(fragment)[k..]
    decreases |fragment| - k
  {
    if k < |fragment| {
      TextOfFragment(s, fragment, k + 1);
      assert BlocksIn(s).At(k) == fragment[k] as int && fragment[k] in fragment;
    } else if k < CharactersInEntry {
      assert BlocksIn(s).At(k) == 0x0000;
    }
  }

  /** Appends characters of one block until a null; `ended` says that there was one. */
  method AppendBlock(us: seq<Unit>, buffer: string, ghost b: Blocks, ghost start: nat)
    returns (r: string, ended: bool)
    requires b.Valid() && start + |us| <= CharactersInEntry
    requires forall k :: start <= k < start + |us| ==> b.At(k) == us[k - start]
    ensures buffer + TextFrom(b, start) == if ended then r else r + TextFrom(b, start + |us|)
  {
    r, ended := buffer, false;
    assert buffer + "" == buffer;
    for i := 0 to |us|
      invariant buffer + TextFrom(b, start) == r + TextFrom(b, start + i)
    {
      assert b.At(start + i) == us[i];
      var c := ToASCII(us[i]);
      if c == '\0' {
        assert r + TextFrom(b, start + i) == r;
        ended := true;
        return;
      }
      assert r + TextFrom(b, start + i) == r + [c] + TextFrom(b, start + i + 1);
      r := r + [c];
    }
  }

  method AppendFilenamePart(s: Slot, buffer: string) returns (r: string)
    ensures r == buffer + TextFrom(BlocksIn(s), 0)
  {
    var b := BlocksIn(s);
    var ended;
    r, ended := AppendBlock(b.name1, buffer, b, 0);
    if ended {
      return;
    }
    r, ended := AppendBlock(b.name2, r, b, 5);
    if ended {
      return;
    }
    r, ended := AppendBlock(b.name3, r, b, 11);
  }

  // ---------------------------------------------------------------- the whole name

  /** How many entries a name of `n` characters needs. */
  function EntriesFor(n: nat): nat
  {
    n / CharactersInEntry + if n % CharactersInEntry > 0 then 1 else 0
  }

  function Fragment(name: string, i: nat): (f: string)
    requires CharactersInEntry * i <= |name|
    ensures |f| <= CharactersInEntry
  {
    name[CharactersInEntry * i..if CharactersInEntry * i + CharactersInEntry <= |name|
                                then CharactersInEntry * i + CharactersInEntry else |name|]
  }

  /** The entries of a name: its fragments from the last to the first, where only the first slot has
      the flag.  The slots are numbered downwards to 1. */
  ghost predicate IsSequenceFor(lfn: seq<Slot>, name: string)
  {
    && |lfn| == EntriesFor(|name|)
    && forall j :: 0 <= j < |lfn| ==>
         && IsLong(lfn[j]) && (IsFirstLong(lfn[j]) <==> j == 0) && Holds(lfn[j], Fragment(name, |lfn| - 1 - j))
         && IsNumbered(lfn[j], |lfn| - j, j == 0)
  }

  /** The first byte of a long-name slot: its number, counted from the start of the name, and 64 more in the slot
      that holds the end of the name. */
  ghost predicate IsNumbered(s: Slot, number: nat, last: bool)
  {
    s[0] as int == number + (if last then 64 else 0) && s[11] == 0x0F && s[12] == s[26] == s[27] == 0
  }

  /** The checksum of a name as it stands in an entry: byte by byte, the sum so far is turned right by one bit and
      the byte added. */
  ghost function ChecksumOf(bytes: seq<byte>): byte
  {
    if bytes == [] then 0
    else
      var sum := ChecksumOf(bytes[..|bytes| - 1]);
      (sum / 2 + 0x80 * (sum % 2) + bytes[|bytes| - 1]) % 0x100
  }

  /** Every slot has the checksum. */
  ghost predicate HaveChecksum(lfn: seq<Slot>, checksum: byte)
  {
    forall j :: 0 <= j < |lfn| ==> lfn[j][13] == checksum
  }

  method CreateLfnSequenceForFilename(name: string, checksum: byte, garbage: Blocks) returns (lfn: seq<Slot>)
    requires |name| <= MaxFilenameLength && garbage.Valid()
    requires forall i :: 0 <= i < |name| ==> name[i] as int < 0x100
    ensures IsSequenceFor(lfn, name) && HaveChecksum(lfn, checksum)
  {
    var count := |name| / CharactersInEntry;
    count := count + if |name| % CharactersInEntry > 0 then 1 else 0;
    lfn := [];
    for i := count downto 0
      invariant |lfn| == count - i
      invariant HaveChecksum(lfn, checksum)
      invariant forall j :: 0 <= j < |lfn| ==>
        && IsLong(lfn[j]) && (IsFirstLong(lfn[j]) <==> j == 0) && Holds(lfn[j], Fragment(name, count - 1 - j))
        && IsNumbered(lfn[j], count - j, j == 0)
    {
      var entry := MakeLongEntry(Fragment(name, i), i + 1, i == count - 1, checksum, garbage);
      lfn := lfn + [entry];
    }
  }

  // ---------------------------------------------------------------- the name on the disk

  /** Where in a slot its `m`th character is stored. */
  function CharacterOffset(m: nat): (at: nat)
    requires m < 13
    ensures at + 2 <= EntrySize
  {
    if m < 5 then 1 + 2 * m else if m < 11 then 14 + 2 * (m - 5) else 28 + 2 * (m - 11)
  }

  /** As its `m`th character slot number `k` stores the `m`th character behind the `13 * (k - 1)` of the slots
      before it, in two bytes, the low one first; behind the name one null and then 0xFFFF. */
  ghost predicate Stores(s: Slot, m: nat, name: string, k: nat)
    requires m < 13 && 1 <= k
  {
    var i, at := 13 * (k - 1) + m, CharacterOffset(m);
    s[at] as int + 0x100 * s[at + 1] as int
    == if i < |name| then name[i] as int else if i == |name| then 0 else 0xFFFF
  }

  /** Slot number `k` of the name lies `k` slots in front of slot `i`. */
  ghost predicate PartLies(slots: seq<Slot>, i: nat, k: nat, name: string, checksum: byte)
    requires k <= i <= |slots| && 1 <= k
  {
    var s := slots[i - k];
    && IsNumbered(s, k, k == (|name| + 12) / 13) && s[13] == checksum
    && forall m :: 0 <= m < 13 ==> Stores(s, m, name, k)
  }

  /** The long name lies in front of slot `i`.  Going back from there the slots are numbered 1, 2 and so on up to the
      one with the flag, and hold thirteen characters each. */
  ghost predicate LongNameBefore(slots: seq<Slot>, i: nat, name: string, checksum: byte)
  {
    var n := (|name| + 12) / 13;
    n <= i <= |slots| && forall k :: 1 <= k <= n ==> PartLies(slots, i, k, name, checksum)
  }

  lemma HoldsIsStored(s: Slot, name: string, k: nat)
    requires 1 <= k <= EntriesFor(|name|) && Holds(s, Fragment(name, k - 1))
    ensures forall m :: 0 <= m < 13 ==> Stores(s, m, name, k)
  {
    var fragment := Fragment(name, k - 1);
    forall m | 0 <= m < 13 ensures Stores(s, m, name, k) {
      UnitIsStored(s, m);
      assert BlocksIn(s).At(m) == UnitFor(fragment, m);
      assert m < |fragment| ==> fragment[m] == name[13 * (k - 1) + m];
    }
  }

  lemma UnitIsStored(s: Slot, m: nat)
    requires m < 13
    ensures var at := CharacterOffset(m); BlocksIn(s).At(m) == s[at] as int + 0x100 * s[at + 1] as int
  {
  }

  /** The entries of a name written in front of a slot. */
  lemma SequenceLies(slots: seq<Slot>, i: nat, lfn: seq<Slot>, name: string, checksum: byte)
    requires IsSequenceFor(lfn, name) && HaveChecksum(lfn, checksum)
    requires |lfn| <= i <= |slots| && slots[i - |lfn|..i] == lfn
    ensures LongNameBefore(slots, i, name, checksum)
  {
    hide Holds, IsNumbered, Stores;
    forall k: nat | 1 <= k <= |lfn| ensures PartLies(slots, i, k, name, checksum) {
      assert slots[i - k] == slots[i - |lfn|..i][|lfn| - k] == lfn[|lfn| - k];
      HoldsIsStored(slots[i - k], name, k);
    }
  }

  /** The text of the entries, put together from the last to the first. */
  ghost function Joined(lfn: seq<Slot>): string
  {
    if lfn == [] then "" else TextFrom(BlocksIn(lfn[|lfn| - 1]), 0) + Joined(lfn[..|lfn| - 1])
  }

  /** The long name reported with an entry, empty when there is none. */
  method GetLongName(lfn: seq<Slot>) returns (filename: string)
    ensures filename == Joined(lfn)
  {
    filename := "";
    assert lfn[..|lfn|] == lfn;
    for j := |lfn| downto 0
      invariant filename + Joined(lfn[..j]) == Joined(lfn)
    {
      JoinedSplits(lfn, j);
      Regroup(filename, TextFrom(BlocksIn(lfn[j]), 0), Joined(lfn[..j]));
      filename := AppendFilenamePart(lfn[j], filename);
    }
  }

  lemma Regroup(a: string, b: string, c: string)
    ensures a + (b + c) == a + b + c
  {
  }

  lemma JoinedSplits(lfn: seq<Slot>, j: nat)
    requires j < |lfn|
    ensures Joined(lfn[..j + 1]) == TextFrom(BlocksIn(lfn[j]), 0) + Joined(lfn[..j])
    ensures Joined(lfn[..0]) == ""
  {
    assert lfn[..j + 1][..j] == lfn[..j] && lfn[..j + 1][j] == lfn[j];
  }

  /** The name from its `i`th fragment on. */
  function Tail(name: string, i: nat): string
  {
    if CharactersInEntry * i <= |name| then name[CharactersInEntry * i..] else ""
  }

  lemma FragmentThenTail(name: string, i: nat)
    requires i < EntriesFor(|name|)
    ensures CharactersInEntry * i <= |name| && Fragment(name, i) + Tail(name, i + 1) == Tail(name, i)
    ensures Tail(name, EntriesFor(|name|)) == ""
  {
  }

  lemma PieceText(lfn: seq<Slot>, name: string, j: nat)
    requires IsSequenceFor(lfn, name) && '\0' !in name && j < |lfn|
    ensures |lfn| == EntriesFor(|name|) && CharactersInEntry * (|lfn| - 1 - j) <= |name|
    ensures TextFrom(BlocksIn(lfn[j]), 0) == Shown(Fragment(name, |lfn| - 1 - j))
  {
    var fragment := Fragment(name, |lfn| - 1 - j);
    TextOfFragment(lfn[j], fragment, 0);
    assert Shown(fragment)[0..] == Shown(fragment);
  }

  lemma {:induction false} JoinedTail(lfn: seq<Slot>, name: string, m: nat)
    requires IsSequenceFor(lfn, name) && '\0' !in name && 1 <= m <= |lfn|
    ensures Joined(lfn[..m]) == Shown(Tail(name, |lfn| - m))
    decreases m
  {
    hide *;
    JoinedSplits(lfn, m - 1);
    PieceText(lfn, name, m - 1);
    FragmentThenTail(name, |lfn| - m);
    ShownAdds(Fragment(name, |lfn| - m), Tail(name, |lfn| - m + 1));
    if 1 < m {
      JoinedTail(lfn, name, m - 1);
    }
  }

  lemma ShownAdds(a: string, b: string)
    ensures Shown(a + b) == Shown(a) + Shown(b)
  {
  }

  lemma SequenceLength(lfn: seq<Slot>, name: string)
    requires IsSequenceFor(lfn, name) && 1 <= |name| <= 255
    ensures 1 <= |lfn| < MostLongEntries && Tail(name, 0) == name
  {
  }

  /** The entries made for a name of 1 to 255 characters read as what can be shown of it: they give it back exactly if
      every character is printable. */
  lemma LongNameRoundTrip(lfn: seq<Slot>, name: string)
    requires IsSequenceFor(lfn, name) && 1 <= |name| <= 255 && '\0' !in name
    ensures Joined(lfn) == Shown(name)
    ensures Joined(lfn) == name <==> AllPrintable(name)
    ensures 1 <= |lfn| < MostLongEntries
  {
    hide *;
    SequenceLength(lfn, name);
    JoinedTail(lfn, name, |lfn|);
    assert lfn[..|lfn|] == lfn;
  }
}
