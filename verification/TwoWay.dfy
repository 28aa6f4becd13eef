/** What it means for a needle to occur in a haystack. */
module Occurrences {
  import opened Memory
  import opened Words

  /** Letters `lo..hi` of the needle match the window of the haystack that starts at `j`. */
  ghost predicate Matches(h: seq<byte>, x: seq<byte>, j: nat, lo: nat, hi: nat)
    requires hi <= |x| && j + hi <= |h|
  {
    forall i :: lo <= i < hi ==> x[i] == At(h, j, i)
  }

  ghost predicate OccursAt(h: seq<byte>, x: seq<byte>, o: int)
  {
    0 <= o && o + |x| <= |h| && h[o..o + |x|] == x
  }

  ghost predicate NoneBefore(h: seq<byte>, x: seq<byte>, j: int)
  {
    forall o :: o < j ==> !OccursAt(h, x, o)
  }

  /** The answer every search in this project must give: the least place where the needle occurs,
      and nothing exactly when it occurs nowhere. */
  ghost predicate IsFirstOccurrence(h: seq<byte>, x: seq<byte>, r: Option<nat>)
  {
    match r
    case None => forall o :: !OccursAt(h, x, o)
    case Some(o) => OccursAt(h, x, o) && NoneBefore(h, x, o)
  }

  lemma OccursIffMatches(h: seq<byte>, x: seq<byte>, o: nat)
    requires o + |x| <= |h|
    ensures OccursAt(h, x, o) <==> Matches(h, x, o, 0, |x|)
  {
    if Matches(h, x, o, 0, |x|) {
      forall i | 0 <= i < |x| ensures h[o..o + |x|][i] == x[i] {
        assert x[i] == At(h, o, i);
      }
    }
    if OccursAt(h, x, o) {
      forall i | 0 <= i < |x| ensures x[i] == At(h, o, i) {
        assert h[o..o + |x|][i] == x[i];
      }
    }
  }

  lemma OccurrenceLetter(h: seq<byte>, x: seq<byte>, o: nat, i: nat)
    requires i < |x| && o + i < |h|
    ensures OccursAt(h, x, o) ==> x[i] == h[o + i]
  {
    if o + |x| <= |h| {
      assert h[o..o + |x|][i] == h[o + i];
    }
  }

  lemma NothingLeft(h: seq<byte>, x: seq<byte>, j: int)
    requires NoneBefore(h, x, j) && |h| - |x| < j
    ensures IsFirstOccurrence(h, x, None)
  {
  }
}

/** The Two-Way search for long needles, with its shift table and its memory. */
module TwoWay {
  import opened Memory
  import opened MemoryScan
  import opened Words
  import opened Occurrences
  import CF = CriticalFactorization

  // ---------------------------------------------------------------- why the shifts are safe

  /** If the right part has been matched as far as `m` and the needle also occurs `d` places on,
      then `d` is a local repetition at the split. */
  lemma OverlapRepeats(h: seq<byte>, x: seq<byte>, j: nat, l: nat, m: nat, d: int)
    requires l <= m <= |x| && j + m <= |h| && Matches(h, x, j, l, m)
    requires 1 <= d && OccursAt(h, x, j + d)
    requires l + d <= m || m == |x|
    ensures LocalRepetition(x, l, d)
  {
    OccursIffMatches(h, x, j + d);
    forall y | 0 <= y < l && l - d <= y && y + d < |x| ensures x[y] == At(x, y, d) {
      assert x[y] == At(h, j + d, y);
      assert x[y + d] == At(h, j, y + d);
    }
  }

  /** A mismatch in the right part at `i` rules out the next `i - l` windows. */
  lemma RightMismatchShift(h: seq<byte>, x: seq<byte>, j: nat, l: nat, i: nat, d: int)
    requires Critical(x, l) && l <= i < |x| && j + |x| <= |h|
    requires Matches(h, x, j, l, i) && x[i] != h[j + i]
    requires 1 <= d <= i - l
    ensures !OccursAt(h, x, j + d)
  {
    OccurrenceLetter(h, x, j + d, i - d);
    assert IsPeriod(x, 0, d) ==> x[i - d] == At(x, i - d, d);
    if OccursAt(h, x, j + d) {
      OverlapRepeats(h, x, j, l, i, d);
    }
  }

  /** A full match of the right part rules out every window up to the least period of a periodic
      needle. */
  lemma PeriodShift(h: seq<byte>, x: seq<byte>, j: nat, l: nat, p: int, d: int)
    requires Critical(x, l) && l <= |x| && MinPeriod(x, l, p) && j + |x| <= |h|
    requires Matches(h, x, j, l, |x|) && 1 <= d < p
    ensures !OccursAt(h, x, j + d)
  {
    if OccursAt(h, x, j + d) {
      OverlapRepeats(h, x, j, l, |x|, d);
      PeriodOfSuffix(x, l, d);
    }
  }

  /** When the needle is not periodic with the right part's period, a full match of the right part
      rules out the next max(left, right) windows. */
  lemma MaximalShift(h: seq<byte>, x: seq<byte>, j: nat, l: nat, p: int, d: int)
    requires Critical(x, l) && l <= |x| && MinPeriod(x, l, p) && !IsPeriod(x, 0, p)
    requires j + |x| <= |h| && Matches(h, x, j, l, |x|)
    requires 1 <= d && (d <= l || d <= |x| - l)
    ensures !OccursAt(h, x, j + d)
  {
    if OccursAt(h, x, j + d) {
      OverlapRepeats(h, x, j, l, |x|, d);
      assert IsPeriod(x, 0, d) && l < d;
      FittingPeriodMakesWordPeriodic(x, l, p, d);
    }
  }

  /** With the first `n - p` letters remembered as matched, a wrong last byte rules out every
      window before the one `n - p` places on. */
  lemma MemoryShift(h: seq<byte>, x: seq<byte>, j: nat, p: int, s: int)
    requires IsPeriod(x, 0, p) && p <= |x| && j + |x| <= |h|
    requires Matches(h, x, j, 0, |x| - p) && x[|x| - 1] != h[j + |x| - 1]
    requires 1 <= s < |x| - p
    ensures !OccursAt(h, x, j + s)
  {
    var n, b := |x|, |x| - p - s;
    OccurrenceLetter(h, x, j + s, n - 1 - s);
    OccurrenceLetter(h, x, j + s, b - 1);
    assert x[b - 1] == At(x, b - 1, p);
    assert x[n - p - 1] == At(h, j, n - p - 1);
    assert x[n - p - 1] == At(x, n - p - 1, p);
  }

  /** After shifting a periodic needle by its period, all but its last period is known to match. */
  lemma RememberedMatch(h: seq<byte>, x: seq<byte>, j: nat, l: nat, p: int)
    requires IsPeriod(x, 0, p) && l <= p <= |x| && j + |x| <= |h| && Matches(h, x, j, l, |x|)
    ensures Matches(h, x, j + p, 0, |x| - p)
  {
    forall i | 0 <= i < |x| - p ensures x[i] == At(h, j + p, i) {
      assert x[i] == At(x, i, p);
      assert x[i + p] == At(h, j, i + p);
    }
  }

  /** The comparison that chooses the branch: the left part repeats `p` places on exactly when `p`
      is a period of the whole needle. */
  lemma LeftPartRepeatsIffPeriod(x: seq<byte>, l: nat, p: nat)
    requires l + p <= |x| && IsPeriod(x, l, p)
    ensures x[..l] == x[p..p + l] <==> IsPeriod(x, 0, p)
  {
    if x[..l] == x[p..p + l] {
      forall i | 0 <= i && i + p < |x| ensures x[i] == At(x, i, p) {
        assert i < l ==> x[..l][i] == x[p..p + l][i];
      }
    }
    if IsPeriod(x, 0, p) {
      forall i | 0 <= i < l ensures x[..l][i] == x[p..p + l][i] {
        assert x[i] == At(x, i, p);
      }
    }
  }

  // ---------------------------------------------------------------- the shift table

  /** `shift[c]` is how far the last `c` lies from the end of the first `n` letters, or the
      needle's length when there is none. */
  ghost predicate TableFor(x: seq<byte>, n: nat, shift: seq<nat>)
    requires n <= |x|
  {
    && |shift| == 256
    && forall c: byte :: && shift[c] <= |x|
                         && (shift[c] < |x| ==> |x| - 1 - shift[c] < n && x[|x| - 1 - shift[c]] == c)
                         && (forall i :: |x| - 1 - shift[c] < i < n ==> x[i] != c)
  }

  method BuildShiftTable(needle: seq<byte>) returns (table: array<nat>)
    ensures fresh(table) && TableFor(needle, |needle|, table[..])
  {
    table := new nat[256];
    for i := 0 to 256
      invariant forall c :: 0 <= c < i ==> table[c] == |needle|
    {
      table[i] := |needle|;
    }
    for i := 0 to |needle|
      invariant TableFor(needle, i, table[..])
    {
      table[needle[i]] := |needle| - i - 1;
    }
  }

  /** A window whose last byte is `c` cannot match before the table's distance has been covered. */
  lemma BadByteShift(h: seq<byte>, x: seq<byte>, j: nat, shift: seq<nat>, d: int)
    requires 1 <= |x| && j + |x| <= |h| && TableFor(x, |x|, shift)
    requires 0 <= d < shift[h[j + |x| - 1]]
    ensures !OccursAt(h, x, j + d)
  {
    OccurrenceLetter(h, x, j + d, |x| - 1 - d);
  }

  // ---------------------------------------------------------------- the search

  /** In a needle of period `p` every byte that occurs does so within the last `p` places. */
  lemma PeriodicTable(x: seq<byte>, p: int, shift: seq<nat>, c: byte)
    requires IsPeriod(x, 0, p) && TableFor(x, |x|, shift)
    ensures p <= shift[c] ==> shift[c] == |x|
  {
    if p <= shift[c] < |x| {
      PeriodRepeats(x, p, |x| - 1 - shift[c]);
      assert false;
    }
  }

  lemma PeriodRepeats(x: seq<byte>, p: int, k: nat)
    requires IsPeriod(x, 0, p) && k + p < |x|
    ensures x[k] == x[k + p]
  {
    assert x[k] == At(x, k, p);
  }

  /** The scan of the right part; the last byte is already known to match. */
  method ScanRight(h: seq<byte>, x: seq<byte>, j: nat, start: nat) returns (i: nat, ghost comparisons: nat)
    requires 1 <= |x| && start < |x| && j + |x| <= |h| && x[|x| - 1] == h[j + |x| - 1]
    ensures start <= i < |x| && Matches(h, x, j, start, i)
    ensures i < |x| - 1 ==> x[i] != h[j + i]
    ensures i == |x| - 1 ==> Matches(h, x, j, start, |x|)
    ensures comparisons == i - start + if i < |x| - 1 then 1 else 0
  {
    i, comparisons := start, 0;
    while i < |x| - 1 && x[i] == h[i + j]
      invariant start <= i < |x| && Matches(h, x, j, start, i) && comparisons == i - start
    {
      i, comparisons := i + 1, comparisons + 1;
    }
    if i < |x| - 1 {
      comparisons := comparisons + 1;
    }
  }

  /** The scan of the left part, from its end down to what is remembered as matched. */
  method ScanLeft(h: seq<byte>, x: seq<byte>, j: nat, suffix: nat, memory: nat)
    returns (i: int, ghost comparisons: nat)
    requires suffix <= |x| && j + |x| <= |h|
    ensures -1 <= i < suffix && Matches(h, x, j, i + 1, suffix)
    ensures memory < i + 1 ==> x[i] != h[j + i]
    ensures comparisons == suffix - 1 - i + if memory < i + 1 then 1 else 0
  {
    i, comparisons := suffix - 1, 0;
    while memory < i + 1 && x[i] == h[i + j]
      invariant -1 <= i < suffix && Matches(h, x, j, i + 1, suffix) && comparisons == suffix - 1 - i
    {
      i, comparisons := i - 1, comparisons + 1;
    }
    if memory < i + 1 {
      comparisons := comparisons + 1;
    }
  }

  lemma AdvancePastRightMismatch(h: seq<byte>, x: seq<byte>, j: nat, l: nat, i: nat)
    requires Critical(x, l) && l <= i < |x| && j + |x| <= |h|
    requires Matches(h, x, j, l, i) && x[i] != h[j + i] && NoneBefore(h, x, j)
    ensures NoneBefore(h, x, j + (i - l + 1))
  {
    forall o | j <= o < j + (i - l + 1) ensures !OccursAt(h, x, o) {
      var d := o - j;
      if d == 0 {
        OccurrenceLetter(h, x, j, i);
      } else {
        RightMismatchShift(h, x, j, l, i, d);
      }
    }
  }

  lemma AdvancePastLeftMismatch(
      h: seq<byte>, x: seq<byte>, j: nat, l: nat, p: int, periodic: bool, i: nat, s: nat)
    requires Critical(x, l) && l <= |x| && MinPeriod(x, l, p) && j + |x| <= |h|
    requires i < |x| && x[i] != h[j + i] && Matches(h, x, j, l, |x|) && NoneBefore(h, x, j)
    requires if periodic then s == p else !IsPeriod(x, 0, p) && (s <= l + 1 || s <= |x| - l + 1)
    ensures NoneBefore(h, x, j + s)
  {
    forall o | j <= o < j + s ensures !OccursAt(h, x, o) {
      var d := o - j;
      if d == 0 {
        OccurrenceLetter(h, x, j, i);
      } else if periodic {
        PeriodShift(h, x, j, l, p, d);
      } else {
        MaximalShift(h, x, j, l, p, d);
      }
    }
  }

  lemma AdvancePastBadByte(h: seq<byte>, x: seq<byte>, j: nat, shift: seq<nat>)
    requires 1 <= |x| && j + |x| <= |h| && TableFor(x, |x|, shift) && NoneBefore(h, x, j)
    ensures NoneBefore(h, x, j + shift[h[j + |x| - 1]])
  {
    forall o | j <= o < j + shift[h[j + |x| - 1]] ensures !OccursAt(h, x, o) {
      var d := o - j;
      BadByteShift(h, x, j, shift, d);
    }
  }

  lemma AdvancePastMemory(h: seq<byte>, x: seq<byte>, j: nat, p: int)
    requires IsPeriod(x, 0, p) && p <= |x| && 1 <= |x| && j + |x| <= |h| && NoneBefore(h, x, j)
    requires Matches(h, x, j, 0, |x| - p) && x[|x| - 1] != h[j + |x| - 1]
    ensures NoneBefore(h, x, j + (|x| - p))
  {
    forall o | j <= o < j + (|x| - p) ensures !OccursAt(h, x, o) {
      var d := o - j;
      if d == 0 {
        OccurrenceLetter(h, x, j, |x| - 1);
      } else {
        MemoryShift(h, x, j, p, d);
      }
    }
  }

  lemma LastByteInTable(x: seq<byte>, shift: seq<nat>, c: byte)
    requires 1 <= |x| && TableFor(x, |x|, shift)
    ensures shift[c] == 0 <==> x[|x| - 1] == c
  {
  }

  lemma WholeMatch(h: seq<byte>, x: seq<byte>, j: nat, memory: nat, i: int, l: nat, right: nat)
    requires -1 <= i && i + 1 <= memory <= |x| && l <= |x| && j + |x| <= |h|
    requires Matches(h, x, j, 0, memory) && Matches(h, x, j, i + 1, l)
    requires right <= l || right <= memory
    requires Matches(h, x, j, right, |x|)
    ensures OccursAt(h, x, j)
  {
    OccursIffMatches(h, x, j);
  }

  /** The branch for a periodic needle: `memory` letters of the next window are known to match.  No byte of the
      haystack is compared twice in the right scans; in the left scans each window costs less than the shift
      behind it. */
  method SearchPeriodic(h: seq<byte>, x: seq<byte>, suffix: nat, period: nat, table: array<nat>)
    returns (found: Option<nat>, ghost comparisons: nat)
    requires 1 <= |x| <= |h| && suffix < |x| && suffix + period <= |x|
    requires Critical(x, suffix) && MinPeriod(x, suffix, period) && IsPeriod(x, 0, period)
    requires TableFor(x, |x|, table[..])
    ensures IsFirstOccurrence(h, x, found) && comparisons < 2 * |h| - |x|
  {
    PeriodOfSuffix(x, suffix, period);
    assert suffix < period;
    var j: nat, memory: nat := 0, 0;
    ghost var inRight: nat, inLeft: nat := 0, 0;
    comparisons := 0;
    while j <= |h| - |x|
      invariant NoneBefore(h, x, j)
      invariant memory == 0 || memory == |x| - period
      invariant j + memory <= |h| && Matches(h, x, j, 0, memory)
      invariant comparisons == inRight + inLeft < 2 * |h| - |x|
      invariant inRight <= j + (if suffix < memory then memory - suffix else 0) && inLeft <= j
      decreases |h| - j
    {
      var shift := table[h[j + |x| - 1]];
      LastByteInTable(x, table[..], h[j + |x| - 1]);
      PeriodicTable(x, period, table[..], h[j + |x| - 1]);
      if 0 < shift {
        AdvancePastBadByte(h, x, j, table[..]);
        if memory != 0 && shift < period {
          AdvancePastMemory(h, x, j, period);
          shift := |x| - period;
        }
        memory := 0;
        j := j + shift;
        continue;
      }
      var right := if suffix < memory then memory else suffix;
      var i;
      ghost var turns;
      i, turns := ScanRight(h, x, j, right);
      inRight := inRight + turns;
      if |x| - 1 <= i {
        var left;
        left, turns := ScanLeft(h, x, j, suffix, memory);
        inLeft := inLeft + turns;
        comparisons := inRight + inLeft;
        if left + 1 < memory + 1 {
          WholeMatch(h, x, j, memory, left, suffix, right);
          return Some(j), comparisons;
        }
        AdvancePastLeftMismatch(h, x, j, suffix, period, true, left, period);
        RememberedMatch(h, x, j, suffix, period);
        j := j + period;
        memory := |x| - period;
      } else {
        AdvancePastRightMismatch(h, x, j, suffix, i);
        comparisons := inRight + inLeft;
        j := j + (i - suffix + 1);
        memory := 0;
      }
    }
    NothingLeft(h, x, j);
    return None, comparisons;
  }

  /** The branch for a needle whose two parts are distinct: any left mismatch shifts maximally. */
  method SearchDistinct(h: seq<byte>, x: seq<byte>, suffix: nat, ghost p: nat, table: array<nat>)
    returns (found: Option<nat>, ghost comparisons: nat)
    requires 1 <= |x| <= |h| && suffix < |x|
    requires Critical(x, suffix) && MinPeriod(x, suffix, p) && !IsPeriod(x, 0, p)
    requires TableFor(x, |x|, table[..])
    ensures IsFirstOccurrence(h, x, found) && comparisons < 2 * |h| - |x|
  {
    ghost var inRight: nat, inLeft: nat := 0, 0;
    comparisons := 0;
    var period := (if suffix < |x| - suffix then |x| - suffix else suffix) + 1;
    var j: nat := 0;
    while j <= |h| - |x|
      invariant NoneBefore(h, x, j)
      invariant comparisons == inRight + inLeft < 2 * |h| - |x| && inRight <= j && inLeft <= j
      decreases |h| - j
    {
      var shift := table[h[j + |x| - 1]];
      LastByteInTable(x, table[..], h[j + |x| - 1]);
      if 0 < shift {
        AdvancePastBadByte(h, x, j, table[..]);
        j := j + shift;
        continue;
      }
      var i;
      ghost var turns;
      i, turns := ScanRight(h, x, j, suffix);
      inRight := inRight + turns;
      if |x| - 1 <= i {
        var left;
        left, turns := ScanLeft(h, x, j, suffix, 0);
        inLeft := inLeft + turns;
        comparisons := inRight + inLeft;
        if left == -1 {
          WholeMatch(h, x, j, 0, left, suffix, suffix);
          return Some(j), comparisons;
        }
        AdvancePastLeftMismatch(h, x, j, suffix, p, false, left, period);
        j := j + period;
      } else {
        AdvancePastRightMismatch(h, x, j, suffix, i);
        comparisons := inRight + inLeft;
        j := j + (i - suffix + 1);
      }
    }
    NothingLeft(h, x, j);
    return None, comparisons;
  }

  /** Finds the first occurrence, in fewer comparisons of needle with haystack bytes than twice the haystack's
      length less the needle's. */
  method TwoWayLongNeedle(haystack: Region, needle: Region)
    returns (found: Option<nat>, ghost comparisons: nat)
    requires 1 <= |needle.bytes| <= |haystack.bytes|
    ensures IsFirstOccurrence(haystack.bytes, needle.bytes, found)
    ensures comparisons < 2 * |haystack.bytes| - |needle.bytes|
  {
    var h, x := haystack.bytes, needle.bytes;
    var suffix, period := CF.CriticalFactorization(x);
    var table := BuildShiftTable(x);
    var order := Memcmp(needle, 0, needle, period, suffix);
    LeftPartRepeatsIffPeriod(x, suffix, period);
    if order == 0 {
      found, comparisons := SearchPeriodic(h, x, suffix, period, table);
    } else {
      found, comparisons := SearchDistinct(h, x, suffix, period, table);
    }
  }
}
