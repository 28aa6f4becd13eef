/** The critical factorization of a needle: one scan for the maximal suffix in each byte order,
    and the choice of the shorter of the two suffixes. */
module CriticalFactorization {
  import opened Memory
  import opened Words

  /** Within the block of `p` letters at `s`, the suffix of the block at `i` loses to the block
      itself at a letter inside the block. */
  ghost predicate BlockBelow(x: seq<byte>, rev: bool, s: nat, p: nat, i: nat)
  {
    exists f: nat :: BelowAt(x, rev, i, s, f) && i + f < s + p
  }

  /** What the scan knows when the candidate suffix starts at `s`, the rival at `t`, and `k` letters
      of the rival's current repetition of the candidate's block of `p` letters have been matched. */
  ghost predicate Scanning(x: seq<byte>, rev: bool, s: nat, t: nat, k: nat, p: nat)
  {
    && k < p <= t - s
    && t + k <= |x|
    && RunPeriod(x, s, t + k, p)
    && Agree(x, t - p, s, p)
    && (forall i: nat :: i < s ==> Below(x, rev, i, s))
    && (forall i: nat :: s < i < s + p ==> BlockBelow(x, rev, s, p, i))
  }

  /** How the suffix at `i` stands once the scan has read `m` letters: it has lost at the `f`th
      letter, or it agrees with the candidate as far as the scan went, and the candidate's next
      letter is not before the letter `c` that the rival has to beat. */
  ghost predicate Standing(x: seq<byte>, rev: bool, s: nat, m: nat, c: byte, i: nat, f: nat)
  {
    && m <= |x| && i + f <= m && s + f < |x|
    && Agree(x, i, s, f)
    && (if i + f < m then Before(rev, x[i + f], x[s + f]) else !Before(rev, x[s + f], c))
  }

  ghost predicate Stands(x: seq<byte>, rev: bool, s: nat, m: nat, c: byte, i: nat)
  {
    exists f: nat :: Standing(x, rev, s, m, c, i, f)
  }

  lemma RivalMatches(x: seq<byte>, rev: bool, s: nat, t: nat, k: nat, p: nat)
    requires Scanning(x, rev, s, t, k, p)
    ensures Agree(x, t, s, k)
    ensures s + k < |x| && x[t + k - p] == x[s + k]
  {
    forall d | 0 <= d < k ensures At(x, t, d) == At(x, s, d) {
      assert x[t - p + d] == At(x, t - p + d, p);
      assert At(x, t - p, d) == At(x, s, d);
    }
    assert At(x, t - p, k) == At(x, s, k);
  }

  lemma {:induction false} EverySuffixStands(
      x: seq<byte>, rev: bool, s: nat, t: nat, k: nat, p: nat, i: nat)
    requires Scanning(x, rev, s, t, k, p) && s < i <= t + k
    ensures Stands(x, rev, s, t + k, x[s + k], i)
    decreases i
  {
    var m := t + k;
    RivalMatches(x, rev, s, t, k, p);
    if i < s + p {
      assert BlockBelow(x, rev, s, p, i);
      var f: nat :| BelowAt(x, rev, i, s, f) && i + f < s + p;
      assert Standing(x, rev, s, m, x[s + k], i, f);
    } else if i == s + p {
      forall d | 0 <= d < m - i ensures At(x, i, d) == At(x, s, d) {
        assert x[s + d] == At(x, s + d, p);
      }
      assert Standing(x, rev, s, m, x[s + k], i, m - i);
    } else {
      EverySuffixStands(x, rev, s, t, k, p, i - p);
      StandingOneBlockOn(x, rev, s, t, k, p, i);
    }
  }

  lemma StandingOneBlockOn(x: seq<byte>, rev: bool, s: nat, t: nat, k: nat, p: nat, i: nat)
    requires Scanning(x, rev, s, t, k, p) && s + p < i <= t + k
    requires s + k < |x| && x[t + k - p] == x[s + k]
    requires Stands(x, rev, s, t + k, x[s + k], i - p)
    ensures Stands(x, rev, s, t + k, x[s + k], i)
  {
    var m := t + k;
    var g: nat :| Standing(x, rev, s, m, x[s + k], i - p, g);
    var f: nat := if g < m - i then g else m - i;
    forall d | 0 <= d < f ensures At(x, i, d) == At(x, s, d) {
      assert At(x, i - p, d) == At(x, s, d);
      assert x[i - p + d] == At(x, i - p + d, p);
    }
    if g < m - i {
      assert x[i - p + f] == At(x, i - p + f, p);
    } else if f < g {
      assert At(x, i - p, f) == At(x, s, f);
    }
    assert Standing(x, rev, s, m, x[s + k], i, f);
  }

  // ---------------------------------------------------------------- the four steps of the scan

  lemma StartScanning(x: seq<byte>, rev: bool)
    requires 1 <= |x|
    ensures Scanning(x, rev, 0, 1, 0, 1)
  {
    assert Agree(x, 0, 0, 1);
  }

  lemma MatchStep(x: seq<byte>, rev: bool, s: nat, t: nat, k: nat, p: nat)
    requires Scanning(x, rev, s, t, k, p) && t + k < |x| && x[t + k] == At(x, s, k)
    ensures k + 1 < p ==> Scanning(x, rev, s, t, k + 1, p)
    ensures k + 1 == p ==> Scanning(x, rev, s, t + p, 0, p)
  {
    RivalMatches(x, rev, s, t, k, p);
    assert RunPeriod(x, s, t + k + 1, p) by {
      forall i | s <= i && i + p < t + k + 1 ensures x[i] == At(x, i, p) {
      }
    }
    if k + 1 == p {
      forall d | 0 <= d < p ensures At(x, t, d) == At(x, s, d) {
      }
    }
  }

  /** The rival lost: everything read so far becomes one block. */
  lemma SmallerStep(x: seq<byte>, rev: bool, s: nat, t: nat, k: nat, p: nat)
    requires Scanning(x, rev, s, t, k, p) && t + k < |x| && Before(rev, x[t + k], x[s + k])
    ensures Scanning(x, rev, s, t + k + 1, 0, t + k + 1 - s)
  {
    var p' := t + k + 1 - s;
    forall i: nat | s < i < s + p' ensures BlockBelow(x, rev, s, p', i) {
      EverySuffixStands(x, rev, s, t, k, p, i);
      var f: nat :| Standing(x, rev, s, t + k, x[s + k], i, f);
      assert BelowAt(x, rev, i, s, f);
    }
    assert Agree(x, s, s, p');
  }

  /** The rival won: it becomes the candidate, and every earlier suffix is below it. */
  lemma LargerStep(x: seq<byte>, rev: bool, s: nat, t: nat, k: nat, p: nat)
    requires Scanning(x, rev, s, t, k, p) && t + k < |x| && Before(rev, x[s + k], x[t + k])
    ensures Scanning(x, rev, t, t + 1, 0, 1)
  {
    RivalMatches(x, rev, s, t, k, p);
    assert BelowAt(x, rev, s, t, k);
    forall i: nat | i < t ensures Below(x, rev, i, t) {
      if i < s {
        BelowTransitive(x, rev, i, s, t);
      } else if s < i {
        EverySuffixStands(x, rev, s, t, k, p, i);
        var f: nat :| Standing(x, rev, s, t + k, x[s + k], i, f);
        if i + f < t + k {
          assert BelowAt(x, rev, i, s, f);
          BelowTransitive(x, rev, i, s, t);
        } else {
          assert At(x, i, k) == At(x, s, k);
          forall d | 0 <= d < k ensures At(x, i, d) == At(x, t, d) {
            assert At(x, i, d) == At(x, s, d);
          }
          assert BelowAt(x, rev, i, t, k);
        }
      }
    }
    assert Agree(x, t, t, 1);
  }

  lemma ScanFinished(x: seq<byte>, rev: bool, s: nat, t: nat, k: nat, p: nat)
    requires Scanning(x, rev, s, t, k, p) && t + k == |x|
    ensures MaximalSuffix(x, rev, s) && MinPeriod(x, s, p)
  {
    forall i: nat | i < |x| && i != s
      ensures Below(x, rev, i, s) || (s < i && Agree(x, i, s, |x| - i))
    {
      if s < i {
        EverySuffixStands(x, rev, s, t, k, p, i);
        var f: nat :| Standing(x, rev, s, |x|, x[s + k], i, f);
        if i + f < |x| {
          assert BelowAt(x, rev, i, s, f);
        }
      }
    }
    forall q | 1 <= q < p ensures !IsPeriod(x, s, q) {
      assert BlockBelow(x, rev, s, p, s + q);
      var f: nat :| BelowAt(x, rev, s + q, s, f) && s + q + f < s + p;
      assert At(x, s + f, q) == x[s + q + f];
    }
  }

  // ---------------------------------------------------------------- the methods

  /** One scan: the last index before the maximal suffix (-1 when that is the whole needle) and the
      suffix's least period, in fewer than `2 * |needle|` turns of the loop. */
  method ScanForMaximalSuffix(needle: seq<byte>, rev: bool)
    returns (max_suffix: int, p: nat, ghost turns: nat)
    requires 1 <= |needle|
    ensures -1 <= max_suffix < |needle| - 1
    ensures MaximalSuffix(needle, rev, max_suffix + 1)
    ensures MinPeriod(needle, max_suffix + 1, p) && p <= |needle| - (max_suffix + 1)
    ensures turns < 2 * |needle|
  {
    max_suffix := -1;
    var j, k := 0, 1;
    p := 1;
    turns := 0;
    StartScanning(needle, rev);
    while j + k < |needle|
      invariant -1 <= max_suffix < j < |needle| && 1 <= k
      invariant Scanning(needle, rev, max_suffix + 1, j + 1, k - 1, p)
      invariant turns < max_suffix + 1 + j + k
      decreases 2 * |needle| - (max_suffix + 1 + j + k)
    {
      turns := turns + 1;
      var a, b := needle[j + k], needle[max_suffix + k];
      if Before(rev, a, b) {
        SmallerStep(needle, rev, max_suffix + 1, j + 1, k - 1, p);
        j := j + k;
        k := 1;
        p := j - max_suffix;
      } else if a == b {
        assert At(needle, max_suffix + 1, k - 1) == b;
        MatchStep(needle, rev, max_suffix + 1, j + 1, k - 1, p);
        if k != p {
          k := k + 1;
        } else {
          j := j + p;
          k := 1;
        }
      } else {
        LargerStep(needle, rev, max_suffix + 1, j + 1, k - 1, p);
        max_suffix := j;
        j := j + 1;
        k, p := 1, 1;
      }
    }
    ScanFinished(needle, rev, max_suffix + 1, j + 1, k - 1, p);
  }

  /** Splits the needle at a critical position and returns the index of the right part and the
      right part's least period. */
  method CriticalFactorization(needle: seq<byte>) returns (suffix: nat, period: nat)
    requires 1 <= |needle|
    ensures suffix < |needle| && 1 <= period <= |needle| - suffix
    ensures Critical(needle, suffix)
    ensures MinPeriod(needle, suffix, period)
  {
    var max_suffix, p, _ := ScanForMaximalSuffix(needle, false);
    period := p;
    var max_suffix_rev, q, _ := ScanForMaximalSuffix(needle, true);
    if max_suffix_rev + 1 < max_suffix + 1 {
      CriticalFactorizationTheorem(needle, false, max_suffix + 1, max_suffix_rev + 1);
      return max_suffix + 1, period;
    }
    CriticalFactorizationTheorem(needle, true, max_suffix_rev + 1, max_suffix + 1);
    period := q;
    return max_suffix_rev + 1, period;
  }
}
