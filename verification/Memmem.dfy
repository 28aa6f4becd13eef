/** `memmem`: dispatch on the needle's length, the rolling search for two bytes, and the
    pair-hash Horspool search for needles of 3 to 256 bytes. */
module Memmem {
  import opened Memory
  import opened MemoryScan
  import opened Occurrences
  import TW = TwoWay

  /** The hash of the byte at `i` and the byte before it.  The subtraction wraps, and 256 divides
      the modulus it wraps at, so the remainder is that of the plain difference. */
  function Hash2(s: seq<byte>, i: nat): (r: byte)
    requires 1 <= i < |s|
  {
    (s[i] as int - 8 * s[i - 1] as int) % 256
  }

  /** Equal hashes and an equal first byte force an equal second byte. */
  lemma HashDeterminesSecondByte(s: seq<byte>, i: nat, t: seq<byte>, j: nat)
    requires 1 <= i < |s| && 1 <= j < |t| && s[i - 1] == t[j - 1] && Hash2(s, i) == Hash2(t, j)
    ensures s[i] == t[j]
  {
    var d := 8 * s[i - 1] as int;
    assert (s[i] as int - d) % 256 == (t[j] as int - d) % 256;
  }

  lemma PairOfOccurrence(h: seq<byte>, x: seq<byte>, o: nat, i: nat)
    requires OccursAt(h, x, o) && 1 <= i < |x|
    ensures Hash2(h, o + i) == Hash2(x, i)
  {
    assert x[i] == h[o..o + |x|][i] == h[o + i];
    assert x[i - 1] == h[o..o + |x|][i - 1] == h[o + i - 1];
  }

  // ---------------------------------------------------------------- the shift table

  /** `shift[c]` is the last position among the first `n` (not counting position 0) whose pair
      hashes to `c`, or 0 when there is none. */
  ghost predicate LastPairs(x: seq<byte>, n: nat, shift: seq<nat>)
    requires n <= |x|
  {
    && |shift| == 256
    && forall c: byte :: && (shift[c] != 0 ==> shift[c] < n && Hash2(x, shift[c]) == c)
                         && (forall i :: 1 <= i < n && shift[c] < i ==> Hash2(x, i) != c)
  }

  method BuildPairTable(x: seq<byte>) returns (shift: array<nat>, shift1: nat)
    requires 3 <= |x| <= 256
    ensures fresh(shift) && LastPairs(x, |x|, shift[..])
    ensures 1 <= shift1 <= |x| - 1
    ensures forall i :: |x| - 1 - shift1 < i < |x| - 1 ==> 1 <= i ==> Hash2(x, i) != Hash2(x, |x| - 1)
  {
    var m1 := |x| - 1;
    shift := new nat[256];
    for c := 0 to 256
      invariant forall b :: 0 <= b < c ==> shift[b] == 0
    {
      shift[c] := 0;
    }
    for i := 1 to m1
      invariant LastPairs(x, i, shift[..])
    {
      shift[Hash2(x, i)] := i;
    }
    shift1 := m1 - shift[Hash2(x, m1)];
    shift[Hash2(x, m1)] := m1;
  }

  /** The pair read at `pos` sits at `tmp` in the needle at the latest, so no window between the
      old start and `pos - tmp` can match. */
  lemma PairShift(h: seq<byte>, x: seq<byte>, shift: seq<nat>, start: nat, pos: nat)
    requires 2 <= |x| && LastPairs(x, |x|, shift) && NoneBefore(h, x, start)
    requires pos == start + |x| - 1 < |h|
    ensures NoneBefore(h, x, pos - shift[Hash2(h, pos)])
  {
    forall o | start <= o < pos - shift[Hash2(h, pos)] ensures !OccursAt(h, x, o) {
      if OccursAt(h, x, o) {
        PairOfOccurrence(h, x, o, pos - o);
      }
    }
  }

  /** When the last pair matches but the window does not, the next window worth trying puts an
      earlier pair with the same hash there. */
  lemma LastPairShift(h: seq<byte>, x: seq<byte>, start: nat, shift1: nat)
    requires 2 <= |x| && start + |x| <= |h| && NoneBefore(h, x, start) && !OccursAt(h, x, start)
    requires shift1 <= |x| - 1 && Hash2(h, start + |x| - 1) == Hash2(x, |x| - 1)
    requires forall i :: |x| - 1 - shift1 < i < |x| - 1 ==> 1 <= i ==> Hash2(x, i) != Hash2(x, |x| - 1)
    ensures NoneBefore(h, x, start + shift1)
  {
    var last := start + |x| - 1;
    forall o | start < o < start + shift1 ensures !OccursAt(h, x, o) {
      if OccursAt(h, x, o) {
        PairOfOccurrence(h, x, o, last - o);
      }
    }
  }

  /** The window matches exactly when its last pair has the needle's hash and all but the last
      byte compare equal. */
  lemma AllButLastByte(h: seq<byte>, x: seq<byte>, o: nat)
    requires 2 <= |x| && o + |x| <= |h| && Hash2(h, o + |x| - 1) == Hash2(x, |x| - 1)
    ensures OccursAt(h, x, o) <==> h[o..o + (|x| - 1)] == x[0..|x| - 1]
  {
    var m1 := |x| - 1;
    if h[o..o + m1] == x[0..m1] {
      assert x[m1 - 1] == h[o..o + m1][m1 - 1];
      HashDeterminesSecondByte(h, o + m1, x, m1);
      assert h[o..o + |x|] == h[o..o + m1] + [h[o + m1]];
      assert x == x[0..m1] + [x[m1]];
    }
    if OccursAt(h, x, o) {
      assert h[o..o + m1] == h[o..o + |x|][..m1];
    }
  }

  lemma FilterRejects(h: seq<byte>, x: seq<byte>, o: nat, offset: nat, n: nat)
    requires o + |x| <= |h| && offset + n <= |x| && h[o + offset..o + offset + n] != x[offset..offset + n]
    ensures !OccursAt(h, x, o)
  {
    var a, b := h[o + offset..o + offset + n], x[offset..offset + n];
    var k :| 0 <= k < n && a[k] != b[k];
    OccurrenceLetter(h, x, o, offset + k);
  }

  // ---------------------------------------------------------------- the searches

  /** The inner loop: skips windows whose last pair does not occur in the needle. */
  method SkipPairs(h: seq<byte>, x: seq<byte>, shift: array<nat>, start: nat)
    returns (pos: nat, tmp: nat)
    requires 3 <= |x| && start + |x| <= |h| && NoneBefore(h, x, start)
    requires LastPairs(x, |x|, shift[..])
    ensures start + |x| - 1 <= pos < |h| && tmp == shift[Hash2(h, pos)] <= |x| - 1
    ensures tmp == 0 ==> |h| - |x| < pos
    ensures NoneBefore(h, x, pos - tmp)
  {
    var m1, end := |x| - 1, |h| - |x|;
    pos := start + m1;
    tmp := shift[Hash2(h, pos)];
    PairShift(h, x, shift[..], start, pos);
    while pos <= end && tmp == 0
      invariant start + m1 <= pos < |h| && tmp == shift[Hash2(h, pos)] <= m1
      invariant NoneBefore(h, x, pos - tmp)
      decreases |h| - pos
    {
      PairShift(h, x, shift[..], pos, pos + m1);
      pos := pos + m1;
      tmp := shift[Hash2(h, pos)];
    }
  }

  const SizeModulus: nat := 0x1_0000_0000_0000_0000

  /** Decides a window whose last pair has the needle's hash: first eight bytes at the adaptive
      offset when the needle is long, then all but the last byte. */
  method CheckWindow(haystack: Region, needle: Region, hs: nat, filter: nat)
    returns (matched: bool, offset: nat)
    requires 3 <= |needle.bytes| && hs + |needle.bytes| <= |haystack.bytes|
    requires Hash2(haystack.bytes, hs + |needle.bytes| - 1) == Hash2(needle.bytes, |needle.bytes| - 1)
    requires 16 < |needle.bytes| ==> filter + WordSize < |needle.bytes|
    ensures matched <==> OccursAt(haystack.bytes, needle.bytes, hs)
    ensures 16 < |needle.bytes| ==> offset + WordSize < |needle.bytes|
  {
    var m1 := |needle.bytes| - 1;
    offset := filter;
    if 15 < m1 {
      var difference := Memcmp(haystack, hs + offset, needle, offset, WordSize);
      if difference != 0 {
        FilterRejects(haystack.bytes, needle.bytes, hs, offset, WordSize);
        return false, offset;
      }
    }
    AllButLastByte(haystack.bytes, needle.bytes, hs);
    var difference := Memcmp(haystack, hs, needle, 0, m1);
    matched := difference == 0;
    if !matched {
      offset := ((if WordSize <= offset then offset else m1) - WordSize) % SizeModulus;
    }
  }

  method PairHashSearch(haystack: Region, needle: Region) returns (found: Option<nat>)
    requires 3 <= |needle.bytes| <= 256 && |needle.bytes| <= |haystack.bytes|
    ensures IsFirstOccurrence(haystack.bytes, needle.bytes, found)
  {
    var h, x := haystack.bytes, needle.bytes;
    var m1, end := |x| - 1, |h| - |x|;
    var shift, shift1 := BuildPairTable(x);
    var offset: nat := 0;
    var hs: nat := 0;
    while hs <= end
      invariant NoneBefore(h, x, hs)
      invariant 16 < |x| ==> offset + WordSize < |x|
      invariant LastPairs(x, |x|, shift[..])
      decreases |h| - hs
    {
      var pos, tmp := SkipPairs(h, x, shift, hs);
      assert hs <= pos - tmp;
      hs := pos - tmp;
      if tmp < m1 {
        continue;
      }
      var matched;
      matched, offset := CheckWindow(haystack, needle, hs, offset);
      if matched {
        return Some(hs);
      }
      LastPairShift(h, x, hs, shift1);
      hs := hs + shift1;
    }
    NothingLeft(h, x, hs);
    return None;
  }

  /** The rolling search: `hw` holds the two bytes that end at `hs`, 16 bits apart. */
  method TwoByteSearch(h: seq<byte>, x: seq<byte>) returns (found: Option<nat>)
    requires |x| == 2 <= |h|
    ensures IsFirstOccurrence(h, x, found)
  {
    var end := |h| - 2;
    var nw: int := x[0] as int * 0x10000 + x[1] as int;
    var hw: int := h[0] as int * 0x10000 + h[1] as int;
    var hs: nat := 1;
    while hs <= end && hw != nw
      invariant 1 <= hs <= end + 1
      invariant hw == h[hs - 1] as int * 0x10000 + h[hs] as int
      invariant NoneBefore(h, x, hs - 1)
    {
      assert !OccursAt(h, x, hs - 1);
      hs := hs + 1;
      hw := (hw * 0x10000) % 0x1_0000_0000 + h[hs] as int;
    }
    if hw == nw {
      assert h[hs - 1..hs + 1] == x;
      return Some(hs - 1);
    }
    assert !OccursAt(h, x, hs - 1);
    NothingLeft(h, x, hs);
    return None;
  }

  /** Finds the first occurrence of the needle in the haystack. */
  method Memmem(haystack: Region, needle: Region) returns (found: Option<nat>)
    ensures IsFirstOccurrence(haystack.bytes, needle.bytes, found)
  {
    var h, x := haystack.bytes, needle.bytes;
    if |x| == 0 {
      return Some(0);
    }
    if |x| == 1 {
      found := Memchr(haystack, 0, x[0], |h|);
      assert forall o :: 0 <= o < |h| ==> (OccursAt(h, x, o) <==> h[o] == x[0]) by {
        forall o | 0 <= o < |h| ensures OccursAt(h, x, o) <==> h[o] == x[0] {
          assert h[o..o + 1] == [h[o]] && x == [x[0]];
        }
      }
      return;
    }
    if |h| < |x| {
      return None;
    }
    if |x| == 2 {
      found := TwoByteSearch(h, x);
    } else if 256 < |x| {
      ghost var comparisons;
      found, comparisons := TW.TwoWayLongNeedle(haystack, needle);
    } else {
      found := PairHashSearch(haystack, needle);
    }
  }
}
