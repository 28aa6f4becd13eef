/** Combinatorics on words behind the Two-Way search: periods, local repetitions, the order
    on suffixes, and the critical factorization theorem.

    Positions are compared through `At(x, i, d)`, which names the letter `d` places after
    position `i`, so that the quantifiers below have a term to hang on. */
module Words {

  import opened Memory

  ghost function At(x: seq<byte>, i: int, d: int): byte
    requires 0 <= i + d < |x|
  {
    x[i + d]
  }

  /** The `f` letters from `i` and from `j` are the same. */
  ghost predicate Agree(x: seq<byte>, i: nat, j: nat, f: int)
    requires i + f <= |x| && j + f <= |x|
  {
    forall d :: 0 <= d < f ==> At(x, i, d) == At(x, j, d)
  }

  /** `p` is a period of the stretch `x[lo..hi]`. */
  ghost predicate RunPeriod(x: seq<byte>, lo: nat, hi: nat, p: int)
    requires hi <= |x|
  {
    1 <= p && forall i {:trigger At(x, i, p)} :: lo <= i && i + p < hi ==> x[i] == At(x, i, p)
  }

  /** `p` is a period of the suffix `x[lo..]`. */
  ghost predicate IsPeriod(x: seq<byte>, lo: nat, p: int)
  {
    RunPeriod(x, lo, |x|, p)
  }

  /** `p` is the least period of the suffix `x[lo..]`. */
  ghost predicate MinPeriod(x: seq<byte>, lo: nat, p: int)
  {
    IsPeriod(x, lo, p) && forall q :: 1 <= q < p ==> !IsPeriod(x, lo, q)
  }

  /** `r` is a local repetition at the split `x[..l]`, `x[l..]`: wherever a letter of the last
      `r` letters on the left has a letter `r` places later, the two are the same. */
  ghost predicate LocalRepetition(x: seq<byte>, l: nat, r: int)
  {
    1 <= r && forall y {:trigger At(x, y, r)} ::
      0 <= y < l && l - r <= y && y + r < |x| ==> x[y] == At(x, y, r)
  }

  /** The split at `l` is critical: a local repetition there repeats through the whole word and
      is longer than the left part. */
  ghost predicate Critical(x: seq<byte>, l: nat)
  {
    forall r :: LocalRepetition(x, l, r) ==> IsPeriod(x, 0, r) && l < r
  }

  // ---------------------------------------------------------------- order on suffixes

  /** The byte order, or its reverse. */
  predicate Before(rev: bool, a: byte, b: byte)
  {
    if rev then b < a else a < b
  }

  /** The suffixes at `i` and `j` first differ `f` letters in, and there `i` has the smaller one. */
  ghost predicate BelowAt(x: seq<byte>, rev: bool, i: nat, j: nat, f: nat)
  {
    i + f < |x| && j + f < |x| && Agree(x, i, j, f) && Before(rev, x[i + f], x[j + f])
  }

  ghost predicate Below(x: seq<byte>, rev: bool, i: nat, j: nat)
  {
    exists f: nat :: BelowAt(x, rev, i, j, f)
  }

  /** The suffix at `s` is the largest: every other one is below it or is a prefix of it. */
  ghost predicate MaximalSuffix(x: seq<byte>, rev: bool, s: nat)
  {
    s < |x| && forall i: nat :: i < |x| && i != s ==>
      Below(x, rev, i, s) || (s < i && Agree(x, i, s, |x| - i))
  }

  lemma BelowTransitive(x: seq<byte>, rev: bool, i: nat, j: nat, k: nat)
    requires Below(x, rev, i, j) && Below(x, rev, j, k)
    ensures Below(x, rev, i, k)
  {
    var f: nat :| BelowAt(x, rev, i, j, f);
    var g: nat :| BelowAt(x, rev, j, k, g);
    var m := if f < g then f else g;
    assert At(x, i, m) == x[i + m] && At(x, j, m) == x[j + m] && At(x, k, m) == x[k + m];
    assert BelowAt(x, rev, i, k, m);
  }

  /** Two stretches agree no further than their first difference. */
  lemma AgreementStops(x: seq<byte>, i: nat, j: nat, f: nat, g: nat)
    requires i + f < |x| && j + f < |x| && x[i + f] != x[j + f]
    requires i + g <= |x| && j + g <= |x|
    ensures Agree(x, i, j, g) ==> g <= f
    ensures Agree(x, j, i, g) ==> g <= f
  {
    assert At(x, i, f) == x[i + f] && At(x, j, f) == x[j + f];
  }

  lemma BelowAsymmetric(x: seq<byte>, rev: bool, i: nat, j: nat)
    requires Below(x, rev, i, j)
    ensures !Below(x, rev, j, i)
    ensures i <= j < |x| ==> !Agree(x, j, i, |x| - j)
  {
    var f: nat :| BelowAt(x, rev, i, j, f);
    forall g: nat | i + g <= |x| && j + g <= |x|
      ensures Agree(x, i, j, g) || Agree(x, j, i, g) ==> g <= f
    {
      AgreementStops(x, i, j, f, g);
    }
    forall g: nat ensures !BelowAt(x, rev, j, i, g) {
      if i + g < |x| && j + g < |x| && x[i + g] != x[j + g] {
        AgreementStops(x, i, j, g, f);
      }
    }
  }

  // ---------------------------------------------------------------- critical factorization

  lemma RepeatedLetter(x: seq<byte>, l: nat, r: int, f: nat)
    requires LocalRepetition(x, l, r) && f < r <= l && l + f < |x|
    ensures x[l - r + f] == x[l + f]
  {
    assert x[l - r + f] == At(x, l - r + f, r);
  }

  /** A repetition that fits left of a maximal suffix would lift a later suffix above it. */
  lemma RepetitionExceedsLeft(x: seq<byte>, rev: bool, l: nat, r: int)
    requires MaximalSuffix(x, rev, l) && LocalRepetition(x, l, r)
    ensures l < r
  {
    if r <= l {
      var i: nat := l - r;
      assert Below(x, rev, i, l);
      var f: nat :| BelowAt(x, rev, i, l, f);
      if f < r {
        RepeatedLetter(x, l, r, f);
      }
      forall d | 0 <= d < f - r ensures At(x, l, d) == At(x, l + r, d) {
        assert At(x, i, r + d) == At(x, l, r + d);
      }
      assert BelowAt(x, rev, l, l + r, f - r);
      BelowAsymmetric(x, rev, l, l + r);
    }
  }

  /** A repetition longer than the left part runs on through the right part: a first break in it
      would contradict one of the two maximal suffixes. */
  lemma RepetitionIsPeriod(x: seq<byte>, rev: bool, l: nat, l2: nat, r: int)
    requires MaximalSuffix(x, rev, l) && MaximalSuffix(x, !rev, l2) && l2 <= l
    requires LocalRepetition(x, l, r) && l < r
    ensures IsPeriod(x, 0, r)
  {
    if l + r < |x| {
      if Below(x, rev, l + r, l) {
        var f: nat :| BelowAt(x, rev, l + r, l, f);
        var d := l - l2;
        forall y | 0 <= y < d + f ensures At(x, l2, y) == At(x, l2 + r, y) {
          if y < d {
            assert x[l2 + y] == At(x, l2 + y, r);
          } else {
            assert At(x, l + r, y - d) == At(x, l, y - d);
          }
        }
        assert BelowAt(x, !rev, l2, l2 + r, d + f);
        BelowAsymmetric(x, !rev, l2, l2 + r);
        assert false;
      }
      forall y | 0 <= y && y + r < |x| ensures x[y] == At(x, y, r) {
        if l <= y {
          assert At(x, l + r, y - l) == At(x, l, y - l);
        }
      }
    }
  }

  /** The critical factorization theorem: the later of the two maximal suffixes starts at a
      critical split. */
  lemma CriticalFactorizationTheorem(x: seq<byte>, rev: bool, l: nat, l2: nat)
    requires MaximalSuffix(x, rev, l) && MaximalSuffix(x, !rev, l2) && l2 <= l
    ensures Critical(x, l)
  {
    forall r | LocalRepetition(x, l, r) ensures IsPeriod(x, 0, r) && l < r {
      RepetitionExceedsLeft(x, rev, l, r);
      RepetitionIsPeriod(x, rev, l, l2, r);
    }
  }

  lemma PeriodOfSuffix(x: seq<byte>, l: nat, r: int)
    requires IsPeriod(x, 0, r)
    ensures IsPeriod(x, l, r) && LocalRepetition(x, l, r)
  {
  }

  /** At a critical split the local period is the global period of the word, and the left part is
      shorter than it. */
  lemma LocalPeriodIsGlobalPeriod(x: seq<byte>, l: nat, p: int)
    requires Critical(x, l)
    ensures MinPeriod(x, 0, p) <==>
            LocalRepetition(x, l, p) && forall r :: 1 <= r < p ==> !LocalRepetition(x, l, r)
    ensures MinPeriod(x, 0, p) ==> l < p
  {
    forall r | IsPeriod(x, 0, r) ensures LocalRepetition(x, l, r) {
      PeriodOfSuffix(x, l, r);
    }
  }

  /** With a critical split and the right part's least period `p`: a period of the whole word that
      fits in the right part can be cut down by `p` until only `p` is left. */
  lemma {:induction false} FittingPeriodMakesWordPeriodic(x: seq<byte>, l: nat, p: int, q: int)
    requires Critical(x, l) && MinPeriod(x, l, p)
    requires IsPeriod(x, 0, q) && q <= |x| - l
    ensures IsPeriod(x, 0, p)
    decreases q
  {
    PeriodOfSuffix(x, l, q);
    if p < q {
      forall y | 0 <= y < l && l - (q - p) <= y && y + (q - p) < |x|
        ensures x[y] == At(x, y, q - p)
      {
        assert x[y] == At(x, y, q);
        assert x[y + (q - p)] == At(x, y + (q - p), p);
      }
      assert LocalRepetition(x, l, q - p);
      FittingPeriodMakesWordPeriodic(x, l, p, q - p);
    }
  }
}
