/** 64-bit words as eight bytes, and the bit trick that looks for a byte in a word. */
module WordBits {

  /** Eight bytes, each held in a word of its own, as one little-endian word. */
  function Word(
      b0: bv64, b1: bv64, b2: bv64, b3: bv64, b4: bv64, b5: bv64, b6: bv64, b7: bv64): bv64
  {
    b0 | (b1 << 8) | (b2 << 16) | (b3 << 24) | (b4 << 32) | (b5 << 40) | (b6 << 48) | (b7 << 56)
  }

  // Byte `k` of a word, counted from the least significant.

  function Lane0(w: bv64): bv64
  {
    w & 0xFF
  }

  function Lane1(w: bv64): bv64
  {
    (w >> 8) & 0xFF
  }

  function Lane2(w: bv64): bv64
  {
    (w >> 16) & 0xFF
  }

  function Lane3(w: bv64): bv64
  {
    (w >> 24) & 0xFF
  }

  function Lane4(w: bv64): bv64
  {
    (w >> 32) & 0xFF
  }

  function Lane5(w: bv64): bv64
  {
    (w >> 40) & 0xFF
  }

  function Lane6(w: bv64): bv64
  {
    (w >> 48) & 0xFF
  }

  function Lane7(w: bv64): bv64
  {
    (w >> 56) & 0xFF
  }

  predicate HasBytes(
      w: bv64, b0: bv64, b1: bv64, b2: bv64, b3: bv64, b4: bv64, b5: bv64, b6: bv64, b7: bv64)
  {
    && Lane0(w) == b0 && Lane1(w) == b1 && Lane2(w) == b2 && Lane3(w) == b3
    && Lane4(w) == b4 && Lane5(w) == b5 && Lane6(w) == b6 && Lane7(w) == b7
  }

  predicate AreBytes(
      b0: bv64, b1: bv64, b2: bv64, b3: bv64, b4: bv64, b5: bv64, b6: bv64, b7: bv64)
  {
    && b0 <= 0xFF && b1 <= 0xFF && b2 <= 0xFF && b3 <= 0xFF
    && b4 <= 0xFF && b5 <= 0xFF && b6 <= 0xFF && b7 <= 0xFF
  }

  lemma LowLanesOfWord(
      b0: bv64, b1: bv64, b2: bv64, b3: bv64, b4: bv64, b5: bv64, b6: bv64, b7: bv64)
    requires AreBytes(b0, b1, b2, b3, b4, b5, b6, b7)
    ensures var w := Word(b0, b1, b2, b3, b4, b5, b6, b7);
            Lane0(w) == b0 && Lane1(w) == b1 && Lane2(w) == b2 && Lane3(w) == b3
  {
  }

  lemma HighLanesOfWord(
      b0: bv64, b1: bv64, b2: bv64, b3: bv64, b4: bv64, b5: bv64, b6: bv64, b7: bv64)
    requires AreBytes(b0, b1, b2, b3, b4, b5, b6, b7)
    ensures var w := Word(b0, b1, b2, b3, b4, b5, b6, b7);
            Lane4(w) == b4 && Lane5(w) == b5 && Lane6(w) == b6 && Lane7(w) == b7
  {
  }

  /** Putting eight bytes together as a load does. */
  method Assemble(
      b0: bv64, b1: bv64, b2: bv64, b3: bv64, b4: bv64, b5: bv64, b6: bv64, b7: bv64)
    returns (w: bv64)
    requires AreBytes(b0, b1, b2, b3, b4, b5, b6, b7)
    ensures HasBytes(w, b0, b1, b2, b3, b4, b5, b6, b7)
  {
    w := Word(b0, b1, b2, b3, b4, b5, b6, b7);
    LowLanesOfWord(b0, b1, b2, b3, b4, b5, b6, b7);
    HighLanesOfWord(b0, b1, b2, b3, b4, b5, b6, b7);
  }

  /** A word is its eight bytes. */
  lemma LanesDetermineWord(x: bv64, y: bv64)
    ensures x == y <==>
            && Lane0(x) == Lane0(y) && Lane1(x) == Lane1(y)
            && Lane2(x) == Lane2(y) && Lane3(x) == Lane3(y)
            && Lane4(x) == Lane4(y) && Lane5(x) == Lane5(y)
            && Lane6(x) == Lane6(y) && Lane7(x) == Lane7(y)
  {
  }

  /** Non-zero when `x` has a zero byte. */
  function DetectNull(x: bv64): bv64
  {
    (x - 0x0101010101010101) & !x & 0x8080808080808080
  }

  function DetectChar(x: bv64, mask: bv64): bv64
  {
    DetectNull(x ^ mask)
  }

  lemma DetectNullIffZeroLane(x: bv64)
    ensures DetectNull(x) != 0 <==>
            || Lane0(x) == 0 || Lane1(x) == 0 || Lane2(x) == 0 || Lane3(x) == 0
            || Lane4(x) == 0 || Lane5(x) == 0 || Lane6(x) == 0 || Lane7(x) == 0
  {
  }

  lemma XorIsLanewise(x: bv64, y: bv64)
    ensures Lane0(x ^ y) == 0 <==> Lane0(x) == Lane0(y)
    ensures Lane1(x ^ y) == 0 <==> Lane1(x) == Lane1(y)
    ensures Lane2(x ^ y) == 0 <==> Lane2(x) == Lane2(y)
    ensures Lane3(x ^ y) == 0 <==> Lane3(x) == Lane3(y)
    ensures Lane4(x ^ y) == 0 <==> Lane4(x) == Lane4(y)
    ensures Lane5(x ^ y) == 0 <==> Lane5(x) == Lane5(y)
    ensures Lane6(x ^ y) == 0 <==> Lane6(x) == Lane6(y)
    ensures Lane7(x ^ y) == 0 <==> Lane7(x) == Lane7(y)
  {
  }

  /** The bit trick is exact: it fires precisely when the two words have a byte in common. */
  lemma DetectCharIffLaneEqual(x: bv64, y: bv64)
    ensures DetectChar(x, y) != 0 <==>
            || Lane0(x) == Lane0(y) || Lane1(x) == Lane1(y)
            || Lane2(x) == Lane2(y) || Lane3(x) == Lane3(y)
            || Lane4(x) == Lane4(y) || Lane5(x) == Lane5(y)
            || Lane6(x) == Lane6(y) || Lane7(x) == Lane7(y)
  {
    DetectNullIffZeroLane(x ^ y);
    XorIsLanewise(x, y);
  }

  /** The loop in `memchr` that spreads the target over a word. */
  method SpreadMask(d: bv64) returns (mask: bv64)
    requires d <= 0xFF
    ensures HasBytes(mask, d, d, d, d, d, d, d, d)
  {
    mask := (d << 8) | d;
    mask := (mask << 16) | mask;
    mask := (mask << 32) | mask;
  }
}

/** Bytes, regions of memory, and 64-bit words loaded from them. */
module Memory {
  import opened WordBits

  type byte = b: int | 0 <= b < 256

  datatype Option<+T> = None | Some(value: T)

  /** A contiguous object and the address of its first byte.  The address matters only to the
      loops that look at alignment. */
  datatype Region = Region(address: nat, bytes: seq<byte>)

  const WordSize: nat := 8

  predicate Unaligned(r: Region, offset: nat)
  {
    (r.address + offset) % WordSize != 0
  }

  /** A byte as bits, in the low end of a word. */
  function Bits(b: byte): bv64
  {
    if b == 0 then 0 else Bits(b - 1) + 1
  }

  lemma BitsValue(b: byte)
    ensures Bits(b) <= 0xFF && Bits(b) as int == b
  {
    if b > 0 {
      BitsValue(b - 1);
    }
  }

  lemma BitsInjective(a: byte, b: byte)
    ensures Bits(a) <= 0xFF
    ensures Bits(a) == Bits(b) <==> a == b
  {
    BitsValue(a);
    BitsValue(b);
  }

  /** The word whose bytes, from the least significant up, are the eight bytes at `s[o]`. */
  ghost predicate IsWordAt(w: bv64, s: seq<byte>, o: nat)
    requires o + WordSize <= |s|
  {
    HasBytes(w, Bits(s[o]), Bits(s[o + 1]), Bits(s[o + 2]), Bits(s[o + 3]),
             Bits(s[o + 4]), Bits(s[o + 5]), Bits(s[o + 6]), Bits(s[o + 7]))
  }

  /** An aligned little-endian load. */
  method LoadWord(s: seq<byte>, o: nat) returns (w: bv64)
    requires o + WordSize <= |s|
    ensures IsWordAt(w, s, o)
  {
    forall b: byte ensures Bits(b) <= 0xFF {
      BitsInjective(b, b);
    }
    w := Assemble(Bits(s[o]), Bits(s[o + 1]), Bits(s[o + 2]), Bits(s[o + 3]),
                  Bits(s[o + 4]), Bits(s[o + 5]), Bits(s[o + 6]), Bits(s[o + 7]));
  }
}

/** `memchr` and `memcmp`: byte loops wrapped around loops that take a word at a time. */
module MemoryScan {
  import opened WordBits
  import opened Memory

  /** The test on one word in `memchr`'s fast loop. */
  method WordHolds(s: seq<byte>, o: nat, mask: bv64, ghost d: byte) returns (hit: bool)
    requires o + WordSize <= |s|
    requires var e := Bits(d); HasBytes(mask, e, e, e, e, e, e, e, e)
    ensures hit <==> exists i :: o <= i < o + WordSize && s[i] == d
  {
    var w := LoadWord(s, o);
    hit := DetectChar(w, mask) != 0;
    DetectCharIffLaneEqual(w, mask);
    forall i | o <= i < o + WordSize ensures Bits(s[i]) == Bits(d) <==> s[i] == d {
      BitsInjective(s[i], d);
    }
  }

  /** The test on a pair of words in `memcmp`'s fast loop. */
  method WordsDiffer(s: seq<byte>, i: nat, t: seq<byte>, j: nat) returns (differ: bool)
    requires i + WordSize <= |s| && j + WordSize <= |t|
    ensures differ <==> s[i..i + WordSize] != t[j..j + WordSize]
  {
    var a := LoadWord(s, i);
    var b := LoadWord(t, j);
    differ := a != b;
    LanesDetermineWord(a, b);
    ghost var u, v := s[i..i + WordSize], t[j..j + WordSize];
    forall k | 0 <= k < 8 ensures Bits(u[k]) == Bits(v[k]) <==> u[k] == v[k] {
      BitsInjective(u[k], v[k]);
    }
    assert !differ ==> u[0] == v[0] && u[1] == v[1] && u[2] == v[2] && u[3] == v[3]
                       && u[4] == v[4] && u[5] == v[5] && u[6] == v[6] && u[7] == v[7];
    assert differ ==> u[0] != v[0] || u[1] != v[1] || u[2] != v[2] || u[3] != v[3]
                      || u[4] != v[4] || u[5] != v[5] || u[6] != v[6] || u[7] != v[7];
  }

  /** The word loop in `memchr`: stops at a word that holds the target, or when less than a word
      is left. */
  method SkipWords(s: seq<byte>, start: nat, d: byte, count: nat) returns (src: nat)
    requires start + count <= |s|
    ensures start <= src <= start + count
    ensures forall i :: start <= i < src ==> s[i] != d
    ensures (src - start) % WordSize == 0
    ensures start + count < src + WordSize || exists i :: src <= i < src + WordSize && s[i] == d
  {
    BitsInjective(d, d);
    var mask := SpreadMask(Bits(d));
    var length: nat := count;
    src := start;
    while length >= WordSize
      invariant start <= src && src + length == start + count && (src - start) % WordSize == 0
      invariant forall i :: start <= i < src ==> s[i] != d
    {
      var hit := WordHolds(s, src, mask, d);
      if hit {
        break;
      }
      length := length - WordSize;
      src := src + WordSize;
    }
  }

  /** The first place in `r.bytes[start..start + count]` that holds `c` taken modulo 256. */
  method Memchr(r: Region, start: nat, c: int, count: nat) returns (found: Option<nat>)
    requires start + count <= |r.bytes|
    ensures found.None? ==> forall i :: start <= i < start + count ==> r.bytes[i] != c % 256
    ensures found.Some? ==> start <= found.value < start + count && r.bytes[found.value] == c % 256
    ensures found.Some? ==> forall i :: start <= i < found.value ==> r.bytes[i] != c % 256
  {
    var src: nat, length: nat := start, count;
    var d: byte := c % 256;
    while Unaligned(r, src)
      invariant start <= src && src + length == start + count
      invariant forall i :: start <= i < src ==> r.bytes[i] != d
      decreases length
    {
      if length == 0 {
        return None;
      }
      length := length - 1;
      if r.bytes[src] == d {
        return Some(src);
      }
      src := src + 1;
    }
    if length >= WordSize {
      src := SkipWords(r.bytes, src, d, length);
      length := start + count - src;
    }
    while length > 0
      invariant start <= src && src + length == start + count
      invariant forall i :: start <= i < src ==> r.bytes[i] != d
    {
      length := length - 1;
      if r.bytes[src] == d {
        return Some(src);
      }
      src := src + 1;
    }
    return None;
  }

  /** The word loop in `memcmp`: how many bytes it finds equal before it stops. */
  method SkipEqualWords(s: seq<byte>, i: nat, t: seq<byte>, j: nat, n: nat) returns (done: nat)
    requires i + n <= |s| && j + n <= |t|
    ensures done <= n && s[i..i + done] == t[j..j + done]
  {
    done := 0;
    while n - done >= WordSize
      invariant done <= n && s[i..i + done] == t[j..j + done]
    {
      var differ := WordsDiffer(s, i + done, t, j + done);
      if differ {
        break;
      }
      assert s[i..i + done + WordSize] == s[i..i + done] + s[i + done..i + done + WordSize];
      assert t[j..j + done + WordSize] == t[j..j + done] + t[j + done..j + done + WordSize];
      done := done + WordSize;
    }
  }

  /** The two stretches first differ at `k`, and `difference` is by how much. */
  ghost predicate FirstDifference(a: seq<byte>, b: seq<byte>, k: nat, difference: int)
  {
    && k < |a| && k < |b| && a[..k] == b[..k] && a[k] != b[k]
    && difference == a[k] as int - b[k] as int
  }

  ghost predicate IsDifference(a: seq<byte>, b: seq<byte>, difference: int)
  {
    exists k: nat :: FirstDifference(a, b, k, difference)
  }

  /** Zero when the `n` bytes at `i` and at `j` are the same; otherwise the difference of the
      first pair of bytes that differ. */
  method Memcmp(r1: Region, i: nat, r2: Region, j: nat, n: nat) returns (order: int)
    requires i + n <= |r1.bytes| && j + n <= |r2.bytes|
    ensures order == 0 <==> r1.bytes[i..i + n] == r2.bytes[j..j + n]
    ensures order != 0 ==> IsDifference(r1.bytes[i..i + n], r2.bytes[j..j + n], order)
  {
    ghost var a, b := r1.bytes[i..i + n], r2.bytes[j..j + n];
    var done: nat := 0;
    if n >= WordSize && !Unaligned(r1, i) && !Unaligned(r2, j) {
      done := SkipEqualWords(r1.bytes, i, r2.bytes, j, n);
      assert a[..done] == r1.bytes[i..i + done];
      assert b[..done] == r2.bytes[j..j + done];
    }
    while done < n
      invariant done <= n && a[..done] == b[..done]
    {
      if r1.bytes[i + done] != r2.bytes[j + done] {
        order := r1.bytes[i + done] as int - r2.bytes[j + done] as int;
        assert FirstDifference(a, b, done, order);
        return;
      }
      done := done + 1;
    }
    assert a == a[..n] && b == b[..n];
    return 0;
  }
}
