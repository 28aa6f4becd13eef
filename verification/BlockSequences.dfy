/** Sequences of equally long blocks laid end to end. */
module BlockSequences {
  import opened Memory
  import opened LayoutArithmetic
  import opened BlockDevices

  function Min(a: nat, b: nat): nat
  {
    if a < b then a else b
  }

  ghost predicate Uniform<T>(cs: seq<seq<T>>, n: nat)
  {
    forall i :: 0 <= i < |cs| ==> |cs[i]| == n
  }

  ghost function Flatten<T>(cs: seq<seq<T>>): seq<T>
  {
    if cs == [] then [] else Flatten(cs[..|cs| - 1]) + cs[|cs| - 1]
  }

  lemma {:induction false} FlattenLength<T>(cs: seq<seq<T>>, n: nat)
    requires Uniform(cs, n)
    ensures |Flatten(cs)| == Product(|cs|, n)
    decreases |cs|
  {
    if cs != [] {
      FlattenLength(cs[..|cs| - 1], n);
    }
  }

  lemma {:induction false} FlattenPrefix<T>(cs: seq<seq<T>>, n: nat, k: nat)
    requires Uniform(cs, n) && k <= |cs|
    ensures Product(k, n) <= |Flatten(cs)| && Flatten(cs)[..Product(k, n)] == Flatten(cs[..k])
    decreases |cs|
  {
    FlattenLength(cs[..k], n);
    if k == |cs| {
      assert cs[..k] == cs;
    } else {
      var front := cs[..|cs| - 1];
      assert front[..k] == cs[..k];
      FlattenPrefix(front, n, k);
    }
  }

  /** Block `k` lies where the layout puts it. */
  lemma FlattenAt<T>(cs: seq<seq<T>>, n: nat, k: nat)
    requires Uniform(cs, n) && k < |cs|
    ensures Product(k + 1, n) == Product(k, n) + n <= |Flatten(cs)|
    ensures Flatten(cs)[Product(k, n)..Product(k + 1, n)] == cs[k]
  {
    FlattenPrefix(cs, n, k + 1);
    FlattenPrefix(cs, n, k);
    FlattenLength(cs[..k], n);
    assert cs[..k + 1][..k] == cs[..k];
    assert Flatten(cs[..k + 1]) == Flatten(cs[..k]) + cs[k];
    var m := Product(k, n);
    assert Flatten(cs)[m..m + n] == Flatten(cs)[..m + n][m..];
  }

  /** Replacing block `k` replaces its bytes and no others. */
  lemma {:induction false} FlattenUpdate<T>(cs: seq<seq<T>>, n: nat, k: nat, b: seq<T>)
    requires Uniform(cs, n) && k < |cs| && |b| == n
    ensures Product(k, n) + n <= |Flatten(cs)|
    ensures Flatten(cs[k := b]) == Splice(Flatten(cs), Product(k, n), b)
    decreases |cs|
  {
    FlattenAt(cs, n, k);
    var last := |cs| - 1;
    FlattenLength(cs[..last], n);
    if k == last {
      assert cs[k := b][..last] == cs[..last];
    } else {
      assert cs[k := b][..last] == cs[..last][k := b];
      FlattenUpdate(cs[..last], n, k, b);
    }
  }

  /** `data` has been written at `at`: what lies before it stays, and so does what lies from `kept` on.
      The bytes may have grown. */
  ghost predicate Written<T>(before: seq<T>, after: seq<T>, at: nat, data: seq<T>, kept: nat)
  {
    && |before| <= |after| && at <= |before| && at + |data| <= kept <= |after|
    && after[..at + |data|] == before[..at] + data
    && (kept <= |before| ==> after[kept..|before|] == before[kept..])
  }

  lemma NothingWritten<T>(b: seq<T>, at: nat)
    requires at <= |b|
    ensures Written(b, b, at, [], at)
  {
  }

  /** Writing on where the last write stopped. */
  lemma WrittenOn<T>(a: seq<T>, b: seq<T>, c: seq<T>, at: nat, d: seq<T>, e: seq<T>,
                  keptOfD: nat, kept: nat)
    requires Written(a, b, at, d, keptOfD) && at + |d| <= |b| && Written(b, c, at + |d|, e, kept)
    requires keptOfD <= kept
    ensures Written(a, c, at, d + e, kept)
  {
    assert c[..at + |d + e|] == a[..at] + (d + e);
    if kept <= |a| {
      assert c[kept..|a|] == c[kept..|b|][..|a| - kept] == b[kept..][..|a| - kept];
      assert b[kept..|a|] == b[keptOfD..|a|][kept - keptOfD..] == a[keptOfD..][kept - keptOfD..];
    }
  }

  /** The same for pieces of one buffer. */
  lemma MoreWritten<T>(a: seq<T>, b: seq<T>, c: seq<T>, start: nat, buffer: seq<T>, done: nat, more: nat,
                    keptBefore: nat, kept: nat)
    requires done + more <= |buffer| && Written(a, b, start, buffer[..done], keptBefore)
    requires keptBefore <= start + done <= |b| && Written(b, c, start + done, buffer[done..][..more], kept)
    ensures Written(a, c, start, buffer[..done + more], kept)
  {
    WrittenOn(a, b, c, start, buffer[..done], buffer[done..][..more], keptBefore, kept);
    assert buffer[..done + more] == buffer[..done] + buffer[done..][..more];
  }

  lemma WrittenThenGrown<T>(a: seq<T>, b: seq<T>, c: seq<T>, at: nat, d: seq<T>, kept: nat)
    requires Written(a, b, at, d, kept) && b <= c
    ensures Written(a, c, at, d, kept)
  {
    assert c[..at + |d|] == b[..at + |d|];
    if kept <= |a| {
      assert c[kept..|a|] == b[kept..|a|];
    }
  }

  /** What writing to the bytes means for a file that ends inside them. */
  lemma ContentsWritten<T>(before: seq<T>, after: seq<T>, size: nat, at: nat, data: seq<T>, kept: nat,
                        larger: nat)
    requires Written(before, after, at, data, kept) && size <= |before|
    requires larger == (if size < at + |data| then at + |data| else size) && larger <= |after|
    ensures after[..larger][..at + |data|] == before[..at] + data
    ensures kept <= size ==> larger == size && after[..larger][kept..] == before[..size][kept..]
  {
    assert after[..larger][..at + |data|] == after[..at + |data|];
    if kept <= size {
      assert after[..size][kept..] == after[kept..|before|][..size - kept];
      assert before[..size][kept..] == before[kept..][..size - kept];
    }
  }

  /** Patching block `k` with `chunk` at `off`, over a buffer `x` that holds the block unless `off` is
      zero.  The bytes behind the chunk stay from the next block on, and at once when the buffer did
      hold the block. */
  lemma PatchedBlock<T>(cs: seq<seq<T>>, n: nat, k: nat, x: seq<T>, off: nat, chunk: seq<T>)
    requires Uniform(cs, n) && k < |cs| && |x| == n && off + |chunk| <= n
    requires 0 < off ==> x == cs[k]
    ensures Written(Flatten(cs), Flatten(cs[k := Splice(x, off, chunk)]), Product(k, n) + off, chunk,
                    if 0 < off then Product(k, n) + off + |chunk| else Product(k + 1, n))
  {
    hide *;
    FlattenAt(cs, n, k);
    FlattenUpdate(cs, n, k, Splice(x, off, chunk));
    var before, start := Flatten(cs), Product(k, n);
    if 0 < off {
      NestedSplice(before, start, n, off, chunk);
      SpliceWrites(before, start + off, chunk, chunk);
    } else {
      SpliceStarts(x, chunk);
      SpliceWrites(before, start, Splice(x, 0, chunk), chunk);
    }
  }

  lemma SpliceStarts<T>(x: seq<T>, chunk: seq<T>)
    requires |chunk| <= |x|
    ensures chunk <= Splice(x, 0, chunk)
  {
  }

  /** Putting in a block that starts with `data` writes `data` and keeps what lies behind the block. */
  lemma SpliceWrites<T>(s: seq<T>, at: nat, block: seq<T>, data: seq<T>)
    requires at + |block| <= |s| && data <= block
    ensures Written(s, Splice(s, at, block), at, data, at + |block|)
  {
  }

  /** What a turn of `Write` puts into a cluster, given what the block buffer held. */
  function TurnResult(stale: seq<byte>, cluster: seq<byte>, off: nat, chunk: seq<byte>): (r: seq<byte>)
    requires |stale| == |cluster| && off + |chunk| <= |cluster|
    ensures |r| == |cluster|
  {
    Splice(if 0 < off then cluster else stale, off, chunk)
  }

  /** A turn leaves the rest of the cluster alone, whatever the block buffer held, exactly if it read
      the cluster first or fills it. */
  lemma PreReadDecides(n: nat, off: nat, chunk: seq<byte>)
    requires off + |chunk| <= n
    ensures (forall stale, cluster :: |stale| == |cluster| == n ==>
               TurnResult(stale, cluster, off, chunk) == Splice(cluster, off, chunk))
            <==> 0 < off || |chunk| == n
  {
    if off == 0 && |chunk| < n {
      var stale: seq<byte>, cluster: seq<byte> := seq(n, i => 0), seq(n, i => 1);
      assert TurnResult(stale, cluster, off, chunk)[n - 1] != Splice(cluster, 0, chunk)[n - 1];
    }
  }

  // ---------------------------------------------------------------- a whole write inside the bytes

  /** What a write leaves of the bytes, where it starts at `at`, `off` bytes into a cluster of `n`, and `x` is
      what the block buffer holds: turn by turn, each buffer coming from the turn before. */
  function WriteResult(bytes: seq<byte>, n: nat, at: nat, off: nat, buffer: seq<byte>, x: seq<byte>): (r: seq<byte>)
    requires 0 < n && off <= n && off <= at && |x| == n && at - off + Reach(n, off, |buffer|) <= |bytes|
    ensures |r| == |bytes|
    decreases |buffer|, off
  {
    var copied := Min(n - off, |buffer|);
    var base := at - off;
    var block := TurnResult(x, bytes[base..base + n], off, buffer[..copied]);
    var after := Splice(bytes, base, block);
    if copied == |buffer| then after else WriteResult(after, n, at + copied, 0, buffer[copied..], block)
  }

  /** How far behind the start of its first cluster the last cluster ends that `m` bytes get to. */
  function Reach(n: nat, off: nat, m: nat): (r: nat)
    requires 0 < n && off <= n
    ensures off + m <= r && n <= r
    decreases m, off
  {
    if off + m <= n then n else n + Reach(n, 0, m - (n - off))
  }

  /** A turn has been taken: `block` is what went into the cluster at `base`. */
  ghost predicate TurnDone(before: seq<byte>, n: nat, base: nat, off: nat, chunk: seq<byte>, x: seq<byte>,
                           block: seq<byte>, after: seq<byte>)
  {
    && base + n <= |before| && |x| == n && off + |chunk| <= n
    && block == TurnResult(x, before[base..base + n], off, chunk) && after == Splice(before, base, block)
  }

  /** The whole write has been done. */
  ghost predicate ResultIs(bytes: seq<byte>, n: nat, at: nat, off: nat, buffer: seq<byte>, x: seq<byte>,
                           after: seq<byte>)
  {
    && 0 < n && off <= n && off <= at && |x| == n && at - off + Reach(n, off, |buffer|) <= |bytes|
    && after == WriteResult(bytes, n, at, off, buffer, x)
  }

  /** The write comes to the same when it goes on from here. */
  ghost predicate GoesOn(bytes: seq<byte>, n: nat, at: nat, off: nat, buffer: seq<byte>, x: seq<byte>,
                         now: seq<byte>, nowAt: nat, nowOff: nat, rest: seq<byte>, nowX: seq<byte>)
  {
    if rest == [] then ResultIs(bytes, n, at, off, buffer, x, now)
    else
      && ResultIs(now, n, nowAt, nowOff, rest, nowX, DefinedResult(now, n, nowAt, nowOff, rest, nowX))
      && ResultIs(bytes, n, at, off, buffer, x, DefinedResult(now, n, nowAt, nowOff, rest, nowX))
  }

  /** `WriteResult`, where it is defined. */
  ghost function DefinedResult(bytes: seq<byte>, n: nat, at: nat, off: nat, buffer: seq<byte>, x: seq<byte>): seq<byte>
  {
    if 0 < n && off <= n && off <= at && |x| == n && at - off + Reach(n, off, |buffer|) <= |bytes| then
      WriteResult(bytes, n, at, off, buffer, x)
    else []
  }

  lemma GoesOnAtStart(bytes: seq<byte>, n: nat, at: nat, off: nat, buffer: seq<byte>, x: seq<byte>)
    requires buffer != [] && 0 < n && off <= n && off <= at && |x| == n
    requires at - off + Reach(n, off, |buffer|) <= |bytes|
    ensures GoesOn(bytes, n, at, off, buffer, x, bytes, at, off, buffer, x)
  {
  }

  lemma GoesOnByTurn(bytes: seq<byte>, n: nat, at: nat, off: nat, buffer: seq<byte>, x: seq<byte>,
                     now: seq<byte>, nowAt: nat, nowOff: nat, rest: seq<byte>, nowX: seq<byte>,
                     copied: nat, block: seq<byte>, after: seq<byte>, nextOff: nat)
    requires GoesOn(bytes, n, at, off, buffer, x, now, nowAt, nowOff, rest, nowX) && rest != []
    requires nowOff <= n && nowOff <= nowAt && copied == Min(n - nowOff, |rest|)
    requires TurnDone(now, n, nowAt - nowOff, nowOff, rest[..copied], nowX, block, after)
    requires copied < |rest| ==> nextOff == 0
    ensures GoesOn(bytes, n, at, off, buffer, x, after, nowAt + copied, nextOff, rest[copied..], block)
  {
    hide TurnResult, Splice;
  }

  /** `done` bytes of the buffer have been written; where the write stays inside the bytes, it goes on from
      here to the same result. */
  ghost predicate SoFar(bytes: seq<byte>, now: seq<byte>, n: nat, at: nat, off: nat, buffer: seq<byte>, x: seq<byte>,
                        done: nat, kept: nat, nowOff: nat, nowX: seq<byte>, inside: bool)
    requires done <= |buffer|
  {
    && Written(bytes, now, at, buffer[..done], kept)
    && (inside ==> GoesOn(bytes, n, at, off, buffer, x, now, at + done, nowOff, buffer[done..], nowX))
  }

  lemma SoFarAtStart(bytes: seq<byte>, n: nat, at: nat, off: nat, buffer: seq<byte>, x: seq<byte>, inside: bool)
    requires at <= |bytes| && |x| == n
    requires inside ==> buffer != [] && 0 < n && off <= n && off <= at && at - off + Reach(n, off, |buffer|) <= |bytes|
    ensures SoFar(bytes, bytes, n, at, off, buffer, x, 0, at, off, x, inside)
  {
    hide Written, GoesOn;
    NothingWritten(bytes, at);
    assert buffer[..0] == [] && buffer[0..] == buffer;
    if inside {
      GoesOnAtStart(bytes, n, at, off, buffer, x);
    }
  }

  lemma WrittenFits<T>(a: seq<T>, b: seq<T>, at: nat, d: seq<T>, kept: nat)
    requires Written(a, b, at, d, kept)
    ensures at + |d| <= |b|
  {
  }

  lemma SoFarByTurn(bytes: seq<byte>, n: nat, at: nat, off: nat, buffer: seq<byte>, x: seq<byte>, inside: bool,
                    now: seq<byte>, done: nat, kept: nat, nowOff: nat, nowX: seq<byte>,
                    copied: nat, keptNow: nat, nextOff: nat, block: seq<byte>, after: seq<byte>)
    requires done + copied <= |buffer| && done < |buffer| && kept <= at + done
    requires SoFar(bytes, now, n, at, off, buffer, x, done, kept, nowOff, nowX, inside)
    requires Written(now, after, at + done, buffer[done..][..copied], keptNow)
    requires inside ==> nowOff <= n && nowOff <= at + done && copied == Min(n - nowOff, |buffer| - done)
    requires inside ==> copied == |buffer| - done || nextOff == 0
    requires inside ==> TurnDone(now, n, at + done - nowOff, nowOff, buffer[done..][..copied], nowX, block, after)
    ensures SoFar(bytes, after, n, at, off, buffer, x, done + copied, keptNow, nextOff, block, inside)
  {
    hide Written, GoesOn, TurnDone;
    WrittenFits(bytes, now, at, buffer[..done], kept);
    MoreWritten(bytes, now, after, at, buffer, done, copied, kept, keptNow);
    if inside {
      GoesOnByTurn(bytes, n, at, off, buffer, x, now, at + done, nowOff, buffer[done..], nowX, copied, block, after,
                   nextOff);
      assert buffer[done..][copied..] == buffer[done + copied..];
    }
  }

  /** A turn that is the last one whatever is left. */
  lemma StoppedByTurn(bytes: seq<byte>, n: nat, at: nat, off: nat, buffer: seq<byte>, x: seq<byte>, inside: bool,
                      now: seq<byte>, done: nat, kept: nat, nowOff: nat, nowX: seq<byte>,
                      copied: nat, keptNow: nat, after: seq<byte>)
    requires done + copied <= |buffer| && kept <= at + done
    requires SoFar(bytes, now, n, at, off, buffer, x, done, kept, nowOff, nowX, inside)
    requires Written(now, after, at + done, buffer[done..][..copied], keptNow)
    ensures Written(bytes, after, at, buffer[..done + copied], keptNow)
  {
    hide Written, GoesOn;
    WrittenFits(bytes, now, at, buffer[..done], kept);
    MoreWritten(bytes, now, after, at, buffer, done, copied, kept, keptNow);
  }

  lemma AllDone(bytes: seq<byte>, now: seq<byte>, n: nat, at: nat, off: nat, buffer: seq<byte>, x: seq<byte>,
                kept: nat, nowOff: nat, nowX: seq<byte>, inside: bool)
    requires SoFar(bytes, now, n, at, off, buffer, x, |buffer|, kept, nowOff, nowX, inside)
    ensures Written(bytes, now, at, buffer, kept)
    ensures inside ==> ResultIs(bytes, n, at, off, buffer, x, now)
  {
    assert buffer[..|buffer|] == buffer;
  }

  /** Blocks laid end to end that reach as far as the write reach as far as its last cluster. */
  lemma {:induction false} ReachFits(n: nat, k: nat, m: nat, off: nat, length: nat)
    requires 0 < n && off <= n && k < m && Product(k, n) + off + length <= Product(m, n)
    ensures Product(k, n) + Reach(n, off, length) <= Product(m, n)
    decreases length, off
  {
    ProductMonotone(k + 1, m, n);
    if n < off + length {
      assert Product(k + 1, n) == Product(k, n) + n;
      if k + 1 == m {
        assert false;
      }
      ReachFits(n, k + 1, m, 0, length - (n - off));
    }
  }

  /** The bytes before, in and behind a write that ends in the cluster up to `last`.  Those behind it in that
      cluster are what they were if the write began inside the cluster; what the block buffer held if it began
      at its start; and a copy of those one cluster before if it began in an earlier one. */
  ghost predicate IsResult(bytes: seq<byte>, n: nat, at: nat, off: nat, buffer: seq<byte>, x: seq<byte>, last: nat,
                           r: seq<byte>)
  {
    && |r| == |bytes| && |x| == n && off <= at && n + at - off <= last <= |bytes| && at + |buffer| <= last
    && (forall k :: 0 <= k < at ==> r[k] == bytes[k])
    && (forall k :: at <= k < at + |buffer| ==> r[k] == buffer[k - at])
    && (forall k :: last <= k < |r| ==> r[k] == bytes[k])
    && if n < off + |buffer| then forall k :: at + |buffer| <= k < last ==> IsCopy(r, k, n)
       else if 0 < off then forall k :: at + |buffer| <= k < last ==> r[k] == bytes[k]
       else last == at + n && forall k :: at + |buffer| <= k < last ==> r[k] == x[k - at]
  }

  /** The byte is a copy of that `n` before. */
  ghost predicate IsCopy(r: seq<byte>, k: nat, n: nat)
  {
    n <= k < |r| && r[k] == r[k - n]
  }

  lemma SpliceAt<T>(s: seq<T>, at: nat, d: seq<T>)
    requires at + |d| <= |s|
    ensures forall k :: 0 <= k < |s| ==> Splice(s, at, d)[k] == if at <= k < at + |d| then d[k - at] else s[k]
  {
  }

  /** The block a turn puts in. */
  lemma TurnAt(stale: seq<byte>, cluster: seq<byte>, off: nat, chunk: seq<byte>)
    requires |stale| == |cluster| && off + |chunk| <= |cluster|
    ensures forall i :: 0 <= i < |cluster| ==>
              TurnResult(stale, cluster, off, chunk)[i] == if off <= i < off + |chunk| then chunk[i - off]
                                                           else if off == 0 then stale[i] else cluster[i]
  {
    hide Splice;
    SpliceAt(if 0 < off then cluster else stale, off, chunk);
  }

  /** One turn. */
  lemma OneTurn(bytes: seq<byte>, n: nat, at: nat, off: nat, chunk: seq<byte>, x: seq<byte>)
    requires off <= at && off + |chunk| <= n && |x| == n && at - off + n <= |bytes|
    ensures var base := at - off;
            var block := TurnResult(x, bytes[base..base + n], off, chunk);
            var after := Splice(bytes, base, block);
            && (forall i :: 0 <= i < n ==> after[base + i] == block[i])
            && forall k :: 0 <= k < |bytes| ==>
                 after[k] == if at <= k < at + |chunk| then chunk[k - at]
                             else if base <= k < base + n && off == 0 then x[k - base] else bytes[k]
  {
    hide Splice, TurnResult;
    var base := at - off;
    var cluster := bytes[base..base + n];
    var block := TurnResult(x, cluster, off, chunk);
    TurnAt(x, cluster, off, chunk);
    SpliceAt(bytes, base, block);
    forall k | 0 <= k < |bytes|
      ensures Splice(bytes, base, block)[k] == if at <= k < at + |chunk| then chunk[k - at]
                                               else if base <= k < base + n && off == 0 then x[k - base] else bytes[k]
    {
      if base <= k < base + n {
        var i := k - base;
        assert Splice(bytes, base, block)[k] == block[i] && cluster[i] == bytes[k];
      }
    }
  }

  /** The last turn. */
  lemma LastTurn(bytes: seq<byte>, n: nat, at: nat, off: nat, buffer: seq<byte>, x: seq<byte>)
    requires off <= at && off + |buffer| <= n && |x| == n && at - off + n <= |bytes|
    ensures var base := at - off;
            IsResult(bytes, n, at, off, buffer, x, base + n,
                     Splice(bytes, base, TurnResult(x, bytes[base..base + n], off, buffer)))
  {
    hide Splice, TurnResult;
    OneTurn(bytes, n, at, off, buffer, x);
  }

  lemma {:induction false} WriteResultIs(bytes: seq<byte>, n: nat, at: nat, off: nat, buffer: seq<byte>, x: seq<byte>)
    requires 0 < n && off <= n && off <= at && |x| == n && at - off + Reach(n, off, |buffer|) <= |bytes|
    requires buffer != []
    ensures IsResult(bytes, n, at, off, buffer, x, at - off + Reach(n, off, |buffer|),
                     WriteResult(bytes, n, at, off, buffer, x))
    decreases |buffer|, off
  {
    hide Splice, TurnResult, IsResult;
    var copied, base := Min(n - off, |buffer|), at - off;
    if copied == |buffer| {
      assert buffer[..copied] == buffer;
      LastTurn(bytes, n, at, off, buffer, x);
    } else {
      OneTurn(bytes, n, at, off, buffer[..copied], x);
      var block := TurnResult(x, bytes[base..base + n], off, buffer[..copied]);
      var after, rest := Splice(bytes, base, block), buffer[copied..];
      WriteResultIs(after, n, at + copied, 0, rest, block);
      TurnsJoin(bytes, n, at, off, buffer, x, after, block,
                WriteResult(bytes, n, at, off, buffer, x), base + Reach(n, off, |buffer|));
    }
  }

  /** The first turn and the others make the whole. */
  lemma TurnsJoin(bytes: seq<byte>, n: nat, at: nat, off: nat, buffer: seq<byte>, x: seq<byte>,
                  after: seq<byte>, block: seq<byte>, r: seq<byte>, last: nat)
    requires 0 < n && off <= n && off <= at && |x| == n && n - off < |buffer|
    requires |after| == |bytes| && |block| == n && at + n - off <= |bytes|
    requires forall i :: 0 <= i < n ==> after[at - off + i] == block[i]
    requires forall k :: 0 <= k < at ==> after[k] == bytes[k]
    requires forall k :: at <= k < at + n - off ==> after[k] == buffer[k - at]
    requires forall k :: at + n - off <= k < |bytes| ==> after[k] == bytes[k]
    requires IsResult(after, n, at + n - off, 0, buffer[n - off..], block, last, r)
    ensures IsResult(bytes, n, at, off, buffer, x, last, r)
  {
    var copied := n - off;
    var rest := buffer[copied..];
    forall k | at <= k < at + |buffer| ensures r[k] == buffer[k - at] {
      assert at + copied <= k ==> r[k] == rest[k - at - copied];
    }
    forall k | at + |buffer| <= k < last ensures IsCopy(r, k, n) {
      if |rest| <= n {
        var i := k - at - copied;
        assert r[k] == block[i] == after[at - off + i] == r[k - n];
      }
    }
  }

  /** The bytes behind a write, up to `size`, survive whatever the block buffer held exactly if there are none,
      if it ends in a cluster it began inside, if it fills a cluster, or if, reaching several clusters, it puts
      in their place a copy that happens to be the same. */
  lemma BehindSurvivesExactlyIf(bytes: seq<byte>, n: nat, at: nat, off: nat, buffer: seq<byte>, size: nat)
    requires 0 < n && off <= n && off <= at && at - off + Reach(n, off, |buffer|) <= |bytes|
    requires buffer != [] && at + |buffer| <= size <= |bytes|
    ensures var end, last := at + |buffer|, Min(size, at - off + Reach(n, off, |buffer|));
            (forall x :: |x| == n ==> WriteResult(bytes, n, at, off, buffer, x)[end..size] == bytes[end..size])
            <==> size == end
                 || if off + |buffer| <= n then 0 < off || |buffer| == n
                    else forall k :: end <= k < last ==> bytes[k] == Before(bytes, at, buffer, k - n)
  {
    hide WriteResult, Reach;
    var end, reach := at + |buffer|, at - off + Reach(n, off, |buffer|);
    var last := Min(size, reach);
    ReachIsNear(n, off, |buffer|);
    forall x: seq<byte> | |x| == n
      ensures WriteResult(bytes, n, at, off, buffer, x)[end..size] == bytes[end..size]
              <==> TailSurvives(bytes, n, at, off, buffer, x, last)
    {
      WriteResultIs(bytes, n, at, off, buffer, x);
      TailDecides(bytes, n, at, off, buffer, x, reach, WriteResult(bytes, n, at, off, buffer, x), size);
    }
    if size != end && off == 0 && |buffer| < n {
      var x: seq<byte> := seq(n, i => if bytes[end] == 0 then 1 else 0);
      assert x[end - at] != bytes[end];
      assert !TailSurvives(bytes, n, at, off, buffer, x, last);
    } else {
      var x: seq<byte> := seq(n, i => 0);
      assert TailSurvives(bytes, n, at, off, buffer, x, last)
        <==> WriteResult(bytes, n, at, off, buffer, x)[end..size] == bytes[end..size];
    }
  }

  /** What is there before and in the write. */
  function Before(bytes: seq<byte>, at: nat, buffer: seq<byte>, k: int): byte
    requires at <= |bytes|
  {
    if 0 <= k < at then bytes[k] else if at <= k < at + |buffer| then buffer[k - at] else 0
  }

  /** The bytes that come to lie behind the write are those that lay there. */
  ghost predicate TailSurvives(bytes: seq<byte>, n: nat, at: nat, off: nat, buffer: seq<byte>, x: seq<byte>, last: nat)
    requires at <= |bytes| && last <= |bytes|
  {
    if n < off + |buffer| then
      forall k :: at + |buffer| <= k < last ==> bytes[k] == Before(bytes, at, buffer, k - n)
    else 0 < off || forall k :: at + |buffer| <= k < last && k - at < |x| ==> bytes[k] == x[k - at]
  }

  lemma TailDecides(bytes: seq<byte>, n: nat, at: nat, off: nat, buffer: seq<byte>, x: seq<byte>, reach: nat,
                    r: seq<byte>, size: nat)
    requires IsResult(bytes, n, at, off, buffer, x, reach, r) && at + |buffer| <= size <= |bytes|
    requires if n < off + |buffer| then n <= at + |buffer| && reach - n <= at + |buffer| else reach == at - off + n
    ensures r[at + |buffer|..size] == bytes[at + |buffer|..size]
            <==> TailSurvives(bytes, n, at, off, buffer, x, Min(size, reach))
  {
    var end, last := at + |buffer|, Min(size, reach);
    forall k | end <= k < last
      ensures n < off + |buffer| ==> r[k] == Before(bytes, at, buffer, k - n)
      ensures off == 0 && |buffer| <= n ==> k - at < n && r[k] == x[k - at]
    {
      if n < off + |buffer| {
        assert IsCopy(r, k, n);
      }
    }
    if r[end..size] == bytes[end..size] {
      forall k | end <= k < last ensures r[k] == bytes[k] {
        assert r[end..size][k - end] == bytes[end..size][k - end];
      }
    }
    if forall k :: end <= k < last ==> r[k] == bytes[k] {
      forall k | 0 <= k < size - end ensures r[end..size][k] == bytes[end..size][k] {
        assert r[end + k] == bytes[end + k];
      }
    }
  }

  lemma {:induction false} ReachIsNear(n: nat, off: nat, m: nat)
    requires 0 < n && off <= n
    ensures n < off + m ==> Reach(n, off, m) - n <= off + m
    ensures off + m <= n ==> Reach(n, off, m) == n
    decreases m, off
  {
    if n < off + m {
      ReachIsNear(n, 0, m - (n - off));
    }
  }

  lemma FlattenSnoc<T>(cs: seq<seq<T>>, b: seq<T>)
    ensures Flatten(cs + [b]) == Flatten(cs) + b
  {
    assert (cs + [b])[..|cs|] == cs;
  }
}

/** The fields of a directory entry that a file handle reads and writes: the first cluster, kept in
    two halves, and the size. */
module EntryFields {
  import opened Memory
  import opened BlockDevices
  import opened FatLayout

  const EntrySize: nat := 32

  ghost predicate HasEntry(data: seq<byte>, index: nat)
  {
    EntrySize * index + EntrySize <= |data|
  }

  function Encode16(v: nat): (s: seq<byte>)
    requires v < 0x1_0000
    ensures |s| == 2
  {
    [v % 0x100, v / 0x100]
  }

  function Decode16(s: seq<byte>): (v: nat)
    requires |s| == 2
    ensures v < 0x1_0000
  {
    s[0] as int + 0x100 * s[1] as int
  }

  function FirstClusterOf(data: seq<byte>, index: nat): (c: nat)
    requires HasEntry(data, index)
    ensures c < 0x1_0000_0000
  {
    var at := EntrySize * index;
    0x1_0000 * Decode16(data[at + 20..at + 22]) + Decode16(data[at + 26..at + 28])
  }

  function SizeOf(data: seq<byte>, index: nat): (s: nat)
    requires HasEntry(data, index)
    ensures s < 0x1_0000_0000
  {
    var at := EntrySize * index;
    Decode32(data[at + 28..at + 32])
  }

  function WithFirstCluster(data: seq<byte>, index: nat, c: nat): (r: seq<byte>)
    requires HasEntry(data, index) && c < 0x1_0000_0000
    ensures |r| == |data|
  {
    var at := EntrySize * index;
    Splice(Splice(data, at + 20, Encode16(c / 0x1_0000)), at + 26, Encode16(c % 0x1_0000))
  }

  function WithSize(data: seq<byte>, index: nat, size: nat): (r: seq<byte>)
    requires HasEntry(data, index) && size < 0x1_0000_0000
    ensures |r| == |data|
  {
    Splice(data, EntrySize * index + 28, Encode32(size))
  }

  lemma DecodeEncode16(v: nat)
    requires v < 0x1_0000
    ensures Decode16(Encode16(v)) == v
  {
  }

  /** Setting the first cluster sets it, and leaves the size and every byte outside the two halves. */
  lemma FirstClusterIsSet(data: seq<byte>, index: nat, c: nat)
    requires HasEntry(data, index) && c < 0x1_0000_0000
    ensures var after := WithFirstCluster(data, index, c);
            FirstClusterOf(after, index) == c && SizeOf(after, index) == SizeOf(data, index)
    ensures var after, at := WithFirstCluster(data, index, c), 32 * index;
            && after[at + 26] as int + 0x100 * after[at + 27] as int
               + 0x1_0000 * after[at + 20] as int + 0x100_0000 * after[at + 21] as int == c
            && forall i :: 0 <= i < |data| && !(at + 20 <= i < at + 22) && !(at + 26 <= i < at + 28) ==>
                 after[i] == data[i]
  {
    var at := EntrySize * index;
    var high, low := Encode16(c / 0x1_0000), Encode16(c % 0x1_0000);
    DecodeEncode16(c / 0x1_0000);
    DecodeEncode16(c % 0x1_0000);
    var once := Splice(data, at + 20, high);
    SpliceSlice(data, at + 20, high, at + 28, at + 32);
    SpliceSlice(once, at + 26, low, at + 28, at + 32);
    SpliceSlice(once, at + 26, low, at + 20, at + 22);
  }

  lemma SizeIsSet(data: seq<byte>, index: nat, size: nat)
    requires HasEntry(data, index) && size < 0x1_0000_0000
    ensures var after := WithSize(data, index, size);
            SizeOf(after, index) == size && FirstClusterOf(after, index) == FirstClusterOf(data, index)
    ensures var after, at := WithSize(data, index, size), 32 * index;
            && WordAt(after, at + 28) == size
            && forall i :: 0 <= i < |data| && !(at + 28 <= i < at + 32) ==> after[i] == data[i]
  {
    var at := EntrySize * index;
    DecodeEncode32(size);
    SpliceSlice(data, at + 28, Encode32(size), at + 20, at + 22);
    SpliceSlice(data, at + 28, Encode32(size), at + 26, at + 28);
  }

  /** An entry brought up to date: its first cluster if it gets one, its size if it grows. */
  ghost function UpdatedEntry(data: seq<byte>, index: nat, named: bool, c: nat, resized: bool, size: nat)
    : (r: seq<byte>)
    requires HasEntry(data, index) && c < 0x1_0000_0000 && size < 0x1_0000_0000
    ensures |r| == |data| && (!named && !resized ==> r == data)
  {
    var with := if named then WithFirstCluster(data, index, c) else data;
    if resized then WithSize(with, index, size) else with
  }

  /** The entries of a cluster but one read as before. */
  ghost predicate OthersKept(before: seq<byte>, after: seq<byte>, index: nat)
  {
    && |after| == |before|
    && forall i: nat :: i != index && HasEntry(before, i) ==>
         FirstClusterOf(after, i) == FirstClusterOf(before, i) && SizeOf(after, i) == SizeOf(before, i)
  }

  lemma OthersKeptTwice(a: seq<byte>, b: seq<byte>, c: seq<byte>, index: nat)
    requires OthersKept(a, b, index) && OthersKept(b, c, index)
    ensures OthersKept(a, c, index)
  {
    hide FirstClusterOf, SizeOf;
  }

  /** Bytes put into one entry are in no other. */
  lemma PutInEntry(data: seq<byte>, index: nat, at: nat, d: seq<byte>)
    requires HasEntry(data, index) && EntrySize * index <= at && at + |d| <= EntrySize * index + EntrySize
    ensures OthersKept(data, Splice(data, at, d), index)
  {
    forall i: nat | i != index && HasEntry(data, i)
      ensures FirstClusterOf(Splice(data, at, d), i) == FirstClusterOf(data, i)
              && SizeOf(Splice(data, at, d), i) == SizeOf(data, i)
    {
      var e := EntrySize * i;
      SpliceSlice(data, at, d, e + 20, e + 22);
      SpliceSlice(data, at, d, e + 26, e + 28);
      SpliceSlice(data, at, d, e + 28, e + 32);
    }
  }

  /** Setting the first cluster or the size of an entry leaves those of every other entry of the cluster. */
  lemma OtherEntriesKept(data: seq<byte>, index: nat, c: nat, size: nat)
    requires HasEntry(data, index) && c < 0x1_0000_0000 && size < 0x1_0000_0000
    ensures OthersKept(data, WithFirstCluster(data, index, c), index)
    ensures OthersKept(data, WithSize(data, index, size), index)
  {
    hide OthersKept, Splice;
    var at, high, low := EntrySize * index, Encode16(c / 0x1_0000), Encode16(c % 0x1_0000);
    PutInEntry(data, index, at + 20, high);
    PutInEntry(Splice(data, at + 20, high), index, at + 26, low);
    OthersKeptTwice(data, Splice(data, at + 20, high), WithFirstCluster(data, index, c), index);
    PutInEntry(data, index, at + 28, Encode32(size));
  }

  lemma UpdateKeepsOthers(data: seq<byte>, index: nat, named: bool, c: nat, resized: bool, size: nat)
    requires HasEntry(data, index) && c < 0x1_0000_0000 && size < 0x1_0000_0000
    ensures OthersKept(data, UpdatedEntry(data, index, named, c, resized, size), index)
  {
    hide WithSize, WithFirstCluster, FirstClusterOf, SizeOf;
    var with := if named then WithFirstCluster(data, index, c) else data;
    OtherEntriesKept(data, index, c, size);
    OtherEntriesKept(with, index, c, size);
    OthersKeptTwice(data, with, WithSize(with, index, size), index);
  }

  /** First its first cluster, then its size. */
  lemma UpdatedTwice(data: seq<byte>, index: nat, named: bool, c: nat, resized: bool, size: nat)
    requires HasEntry(data, index) && c < 0x1_0000_0000 && size < 0x1_0000_0000
    ensures UpdatedEntry(UpdatedEntry(data, index, named, c, false, 0), index, false, 0, resized, size)
            == UpdatedEntry(data, index, named, c, resized, size)
  {
  }
}
