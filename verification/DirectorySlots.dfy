/** A directory as a sequence of 32-byte slots, what a scan of it yields, and what writing and
    removing an entry do to that. */
module DirectorySlots {
  import opened Memory
  import opened BlockDevices
  import opened EntryFields

  type Slot = s: seq<byte> | |s| == EntrySize witness seq(EntrySize, i => 0)

  const UnusedMark: byte := 0xE5
  const LastAndUnusedMark: byte := 0x00
  const AttributeOffset: nat := 11
  const LongFilenameAttribute: byte := 0x0F
  const MostLongEntries: nat := 21

  predicate InUse(s: Slot)
  {
    s[0] != UnusedMark && s[0] != LastAndUnusedMark
  }

  predicate IsUnused(s: Slot)
  {
    s[0] == UnusedMark
  }

  predicate IsUnusedAndEnd(s: Slot)
  {
    s[0] == LastAndUnusedMark
  }

  predicate IsStandard(s: Slot)
  {
    InUse(s) && s[AttributeOffset] != LongFilenameAttribute
  }

  predicate IsLong(s: Slot)
  {
    InUse(s) && s[AttributeOffset] == LongFilenameAttribute
  }

  /** The flag of the first slot of a long-name run, the one that holds the end of the name. */
  predicate IsFirstLong(s: Slot)
  {
    s[0] / 64 % 2 == 1
  }

  // ---------------------------------------------------------------- scanning

  /** What a scan reports: an entry and the long-name slots it collected in front of it. */
  datatype Item = Item(entry: Slot, longName: seq<Slot>)

  /** A slot beyond the room for long-name slots is ignored. */
  function Collect(pending: seq<Slot>, s: Slot): seq<Slot>
  {
    if |pending| < 21 then pending + [s] else pending
  }

  /** The long-name slots held after looking at `s`. */
  function After(pending: seq<Slot>, s: Slot): seq<Slot>
  {
    if IsLong(s) then Collect(pending, s) else []
  }

  function Found(pending: seq<Slot>, s: Slot): seq<Item>
  {
    if IsStandard(s) then [Item(s, pending)] else []
  }

  /** What the iterator reports from slot `i` on. */
  function Scan(slots: seq<Slot>, i: nat, pending: seq<Slot>): seq<Item>
    requires i <= |slots|
    decreases |slots| - i
  {
    if i == |slots| || IsUnusedAndEnd(slots[i]) then []
    else Found(pending, slots[i]) + Scan(slots, i + 1, After(pending, slots[i]))
  }

  /** What a directory lists. */
  function Listing(slots: seq<Slot>): seq<Item>
  {
    Scan(slots, 0, [])
  }

  /** Everything after the first end mark is an end mark. */
  ghost predicate EndsCleanly(slots: seq<Slot>)
  {
    forall i, j :: 0 <= i < j < |slots| && IsUnusedAndEnd(slots[i]) ==> IsUnusedAndEnd(slots[j])
  }

  ghost predicate Vacant(slots: seq<Slot>, lo: nat, hi: nat)
  {
    hi <= |slots| && forall i :: lo <= i < hi ==> !InUse(slots[i])
  }

  /** A scan reaches slot `n`. */
  ghost predicate Reached(slots: seq<Slot>, n: nat)
  {
    n <= |slots| && forall i :: 0 <= i < n ==> !IsUnusedAndEnd(slots[i])
  }

  /** The items among the first `n` slots, and the long-name slots held there. */
  ghost function ItemsBefore(slots: seq<Slot>, n: nat): seq<Item>
    requires n <= |slots|
  {
    if n == 0 then [] else ItemsBefore(slots, n - 1) + Found(PendingAt(slots, n - 1), slots[n - 1])
  }

  ghost function PendingAt(slots: seq<Slot>, n: nat): seq<Slot>
    requires n <= |slots|
  {
    if n == 0 then [] else After(PendingAt(slots, n - 1), slots[n - 1])
  }

  lemma {:induction false} ScanSplits(slots: seq<Slot>, n: nat)
    requires Reached(slots, n)
    ensures Listing(slots) == ItemsBefore(slots, n) + Scan(slots, n, PendingAt(slots, n))
  {
    if 0 < n {
      ScanSplits(slots, n - 1);
    }
  }

  lemma {:induction false} SamePrefix(a: seq<Slot>, b: seq<Slot>, n: nat)
    requires n <= |a| && n <= |b| && a[..n] == b[..n]
    ensures ItemsBefore(a, n) == ItemsBefore(b, n) && PendingAt(a, n) == PendingAt(b, n)
  {
    if 0 < n {
      assert a[n - 1] == a[..n][n - 1] == b[n - 1];
      assert a[..n - 1] == a[..n][..n - 1] == b[..n - 1];
      SamePrefix(a, b, n - 1);
    }
  }

  lemma {:induction false} SameSuffix(a: seq<Slot>, b: seq<Slot>, n: nat, pending: seq<Slot>)
    requires n <= |a| == |b| && a[n..] == b[n..]
    ensures Scan(a, n, pending) == Scan(b, n, pending)
    decreases |a| - n
  {
    if n < |a| {
      assert a[n] == a[n..][0] == b[n];
      assert a[n + 1..] == a[n..][1..] == b[n + 1..];
      SameSuffix(a, b, n + 1, After(pending, a[n]));
    }
  }

  /** Nothing is held exactly where the slot before is no long-name slot. */
  lemma {:induction false} HeldAt(slots: seq<Slot>, n: nat)
    requires n <= |slots|
    ensures PendingAt(slots, n) == [] <==> n == 0 || !IsLong(slots[n - 1])
    ensures |PendingAt(slots, n)| <= MostLongEntries
  {
    if 0 < n {
      HeldAt(slots, n - 1);
    }
  }

  /** A scan passes over vacant slots, and forgets the long-name slots it held. */
  lemma {:induction false} ScanOverVacant(slots: seq<Slot>, a: nat, b: nat, pending: seq<Slot>)
    requires EndsCleanly(slots) && a <= b < |slots| && Vacant(slots, a, b + 1)
    ensures Scan(slots, a, pending) == Scan(slots, b, [])
    decreases b - a
  {
    if IsUnusedAndEnd(slots[a]) {
      assert a < b ==> IsUnusedAndEnd(slots[b]);
    } else if a < b {
      ScanOverVacant(slots, a + 1, b, []);
    }
  }

  // ---------------------------------------------------------------- looking for room

  /** How many slots right before `p` are vacant. */
  ghost function VacantBefore(slots: seq<Slot>, p: nat): (n: nat)
    requires p <= |slots|
    ensures n <= p && Vacant(slots, p - n, p)
    ensures n == p || InUse(slots[p - n - 1])
  {
    if p == 0 || InUse(slots[p - 1]) then 0 else VacantBefore(slots, p - 1) + 1
  }

  /** No run of `n` vacant slots ends at or before `p`. */
  ghost predicate NoRoomUpTo(slots: seq<Slot>, p: nat, n: nat)
  {
    p <= |slots| && forall q :: 0 <= q <= p ==> VacantBefore(slots, q) < n
  }

  /** The first run of `n` vacant slots. */
  ghost predicate FirstRoom(slots: seq<Slot>, at: nat, n: nat)
  {
    && 0 < n && Vacant(slots, at, at + n) && (at == 0 || InUse(slots[at - 1]))
    && NoRoomUpTo(slots, at + n - 1, n)
  }

  /** The search goes on counting from the pass before, and the first slots make the count up to `n`. */
  ghost predicate Wraps(slots: seq<Slot>, n: nat, count: nat)
  {
    0 < count < n && Vacant(slots, 0, n - count)
  }

  /** What the search has counted before slot `p`, when it began with a count from the pass before. */
  ghost predicate Counted(slots: seq<Slot>, p: nat, n: nat, before: nat, count: nat)
  {
    && p <= |slots|
    && if 0 < before && Vacant(slots, 0, p) then count == before + p
       else count == VacantBefore(slots, p) && (0 < before ==> !Vacant(slots, 0, p) && !Wraps(slots, n, before))
  }

  /** One turn of the search for room. */
  lemma RoomStep(slots: seq<Slot>, p: nat, n: nat, before: nat, count: nat)
    requires p < |slots| && before < n && count < n && NoRoomUpTo(slots, p, n) && Counted(slots, p, n, before, count)
    ensures var next := if InUse(slots[p]) then 0 else count + 1;
            && next <= n && VacantBefore(slots, p + 1) <= next
            && (next < n ==> NoRoomUpTo(slots, p + 1, n) && Counted(slots, p + 1, n, before, next))
            && (next == n ==> if 0 < before && Vacant(slots, 0, p) then Wraps(slots, n, before)
                              else !Wraps(slots, n, before) && FirstRoom(slots, p + 1 - n, n) && count <= p)
  {
    assert Vacant(slots, 0, p + 1) <==> Vacant(slots, 0, p) && !InUse(slots[p]);
  }

  lemma CountStarts(slots: seq<Slot>, n: nat, before: nat)
    requires before < n
    ensures NoRoomUpTo(slots, 0, n) && Counted(slots, 0, n, before, before) && Vacant(slots, 0, 0)
  {
  }

  /** Nothing was found in a whole pass. */
  lemma CountEnds(slots: seq<Slot>, n: nat, before: nat, count: nat)
    requires count < n && Counted(slots, |slots|, n, before, count)
    ensures !Wraps(slots, n, before)
    ensures before == 0 || !Vacant(slots, 0, |slots|) ==> count == VacantBefore(slots, |slots|)
  {
  }

  /** A pass that has grown by end marks: the count behind the last slot in use grows with it. */
  lemma {:induction false} VacantBeforeGrows(slots: seq<Slot>, added: seq<Slot>, q: nat)
    requires Vacant(added, 0, |added|) && q <= |slots + added|
    ensures VacantBefore(slots + added, q)
            == if q <= |slots| then VacantBefore(slots, q) else VacantBefore(slots, |slots|) + (q - |slots|)
    decreases q
  {
    if 0 < q {
      VacantBeforeGrows(slots, added, q - 1);
      assert (slots + added)[q - 1] == if q <= |slots| then slots[q - 1] else added[q - 1 - |slots|];
    }
  }

  /** The room at the end, once there is enough of it, is the first room. */
  lemma RoomAtTheEnd(slots: seq<Slot>, added: seq<Slot>, n: nat)
    requires Vacant(added, 0, |added|) && 0 < n && NoRoomUpTo(slots, |slots|, n)
    ensures var k := VacantBefore(slots, |slots|);
            && VacantBefore(slots + added, |slots + added|) == k + |added|
            && (n <= k + |added| ==> FirstRoom(slots + added, |slots| - k, n))
  {
    var all, k := slots + added, VacantBefore(slots, |slots|);
    VacantBeforeGrows(slots, added, |all|);
    if n <= k + |added| {
      var at := |slots| - k;
      forall q | 0 <= q <= at + n - 1 ensures VacantBefore(all, q) < n {
        VacantBeforeGrows(slots, added, q);
      }
      forall i | at <= i < at + n ensures !InUse(all[i]) {
        assert all[i] == if i < |slots| then slots[i] else added[i - |slots|];
      }
    }
  }

  /** The search for `n` slots, where clusters have `e`, is misled: there is no room in the directory, one more
      cluster is not enough behind the vacant slots at its end, and the vacant slots at its start make up the
      count.  Only then does it return a place with too little room behind it. */
  ghost predicate Misled(slots: seq<Slot>, n: nat, e: nat)
  {
    var k := VacantBefore(slots, |slots|);
    NoRoomUpTo(slots, |slots|, n) && 0 < k && k + e < n && Vacant(slots, 0, n - k)
  }

  lemma FoundAtOnce(slots: seq<Slot>, n: nat, e: nat, at: nat)
    requires FirstRoom(slots, at, n)
    ensures !Misled(slots, n, e)
  {
    VacantCounts(slots, at, at + n);
  }

  lemma FirstInUse(slots: seq<Slot>, n: nat, e: nat, count: nat)
    requires slots != [] && InUse(slots[0])
    ensures !Misled(slots, n, e) && !Wraps(slots, n, count)
  {
  }

  /** The second pass wraps to too little room exactly if the search is misled. */
  lemma SecondPass(slots: seq<Slot>, added: seq<Slot>, n: nat, e: nat)
    requires Vacant(added, 0, |added|) && |added| == e <= |slots| && n <= 2 * e && NoRoomUpTo(slots, |slots|, n)
    ensures var k := VacantBefore(slots, |slots|);
            && (Misled(slots, n, e) <==> Wraps(slots + added, n, k) && k + e < n)
            && (0 < k < n && !Wraps(slots + added, n, k) ==> !Vacant(slots + added, 0, |slots + added|))
  {
    var all, k := slots + added, VacantBefore(slots, |slots|);
    assert forall i :: 0 <= i < |slots| ==> all[i] == slots[i];
    if Vacant(all, 0, |slots|) {
      assert Vacant(slots, 0, |slots|);
      VacantCounts(slots, 0, |slots|);
    }
  }

  /** The search returns a place with room, as far as it returns one at all.  The longest run takes no more than
      two of the smallest clusters. */
  ghost predicate SearchIsSound(slots: seq<Slot>, n: nat, e: nat)
  {
    slots != [] && (InUse(slots[0]) || n <= 2 * e) && !Misled(slots, n, e)
  }

  lemma SoundSearch(slots: seq<Slot>, n: nat, e: nat)
    requires SearchIsSound(slots, n, e)
    ensures slots != [] && (InUse(slots[0]) || n <= 2 * e) && !Misled(slots, n, e)
  {
  }

  /** The passes of the search so far: `more` has been added behind `before`, in which there was no room, and
      unless the first slot is in use `count` goes on from there. */
  ghost predicate Passes(slots0: seq<Slot>, before: seq<Slot>, more: seq<Slot>, n: nat, e: nat, retries: nat,
                         count: nat)
  {
    && slots0 != [] && e <= |slots0| && count < n && (InUse(slots0[0]) || n <= 2 * e) && slots0 <= before
    && if retries == 0 then count == 0 && before == slots0 && more == []
       else
         && |more| == e && Vacant(more, 0, e) && NoRoomUpTo(before, |before|, n)
         && (!InUse(slots0[0]) ==>
               && count == VacantBefore(before, |before|) && (retries == 1 ==> before == slots0)
               && (2 <= retries ==> !Misled(slots0, n, e) && e <= count))
  }

  lemma PassesBegin(slots0: seq<Slot>, n: nat, e: nat)
    requires slots0 != [] && e <= |slots0| && 0 < n && (InUse(slots0[0]) || n <= 2 * e)
    ensures Passes(slots0, slots0, [], n, e, 0, 0) && slots0 + [] == slots0
  {
  }

  /** What a pass has found, and where. */
  lemma PassFound(slots0: seq<Slot>, before: seq<Slot>, more: seq<Slot>, n: nat, e: nat, retries: nat, count: nat,
                  at: nat) returns (place: nat)
    requires Passes(slots0, before, more, n, e, retries, count)
    requires !Wraps(before + more, n, count) ==> FirstRoom(before + more, at, n)
    ensures place == if Wraps(before + more, n, count) && count <= |before| then |before| - count else at
    ensures if Misled(slots0, n, e) then |before + more| < place + n else FirstRoom(before + more, place, n)
    ensures Wraps(before + more, n, count) ==> 0 < count <= |before| && !InUse(slots0[0])
  {
    var slots := before + more;
    assert slots[0] == slots0[0];
    place := if Wraps(slots, n, count) && count <= |before| then |before| - count else at;
    if InUse(slots0[0]) {
      FirstInUse(slots, n, e, count);
      FirstInUse(slots0, n, e, count);
    } else if retries == 0 {
      assert slots == slots0;
      FoundAtOnce(slots0, n, e, at);
    } else {
      RoomAtTheEnd(before, more, n);
      if retries == 1 {
        SecondPass(slots0, more, n, e);
      }
    }
  }

  /** A pass that has found nothing. */
  lemma PassFailed(slots0: seq<Slot>, before: seq<Slot>, more: seq<Slot>, n: nat, e: nat, retries: nat,
                   count: nat)
    requires Passes(slots0, before, more, n, e, retries, count)
    requires !Wraps(before + more, n, count) && NoRoomUpTo(before + more, |before + more|, n)
    ensures !InUse(slots0[0]) ==>
              && (count == 0 || !Vacant(before + more, 0, |before + more|))
              && (retries == 0 ==> before + more == slots0)
              && (0 < retries ==> !Misled(slots0, n, e) && e <= VacantBefore(before + more, |before + more|))
  {
    if !InUse(slots0[0]) && 0 < retries {
      RoomAtTheEnd(before, more, n);
      if retries == 1 {
        SecondPass(slots0, more, n, e);
      } else {
        assert false;
      }
    }
  }

  lemma PassesGoOn(slots0: seq<Slot>, slots: seq<Slot>, more: seq<Slot>, n: nat, e: nat, retries: nat, count: nat)
    requires slots0 != [] && e <= |slots0| && count < n && (InUse(slots0[0]) || n <= 2 * e) && slots0 <= slots
    requires |more| == e && Vacant(more, 0, e) && NoRoomUpTo(slots, |slots|, n)
    requires !InUse(slots0[0]) ==>
               && count == VacantBefore(slots, |slots|) && (retries == 0 ==> slots == slots0)
               && (0 < retries ==> !Misled(slots0, n, e) && e <= count)
    ensures Passes(slots0, slots, more, n, e, retries + 1, count)
  {
  }

  /** Such a directory: nineteen vacant slots, ten in use, three vacant, in clusters of sixteen. */
  lemma SomeSearchIsMisled(free: Slot, used: Slot)
    requires !InUse(free) && InUse(used)
    ensures var slots := seq(32, i => if 19 <= i < 29 then used else free);
            Misled(slots, 22, 16) && VacantBefore(slots, 32) == 3
  {
    var slots := seq(32, i => if 19 <= i < 29 then used else free);
    forall q | 0 <= q <= 32 ensures VacantBefore(slots, q) == if q <= 19 then q else if q <= 29 then 0 else q - 29 {
      VacantInSample(slots, q);
    }
  }

  lemma {:induction false} VacantInSample(slots: seq<Slot>, q: nat)
    requires |slots| == 32 && forall i :: 0 <= i < 32 ==> (InUse(slots[i]) <==> 19 <= i < 29)
    requires q <= 32
    ensures VacantBefore(slots, q) == if q <= 19 then q else if q <= 29 then 0 else q - 29
  {
    if 0 < q {
      VacantInSample(slots, q - 1);
    }
  }

  lemma {:induction false} VacantCounts(slots: seq<Slot>, lo: nat, p: nat)
    requires lo <= p && Vacant(slots, lo, p)
    ensures p - lo <= VacantBefore(slots, p)
    decreases p - lo
  {
    if lo < p {
      VacantCounts(slots, lo, p - 1);
    }
  }

  /** There is no room for `n` slots exactly if no `n` slots in a row are vacant. */
  lemma NoRoomMeansNoRun(slots: seq<Slot>, p: nat, n: nat)
    requires p <= |slots| && 0 < n
    ensures NoRoomUpTo(slots, p, n) <==> forall i: nat, j: nat :: j == i + n && j <= p ==> !Vacant(slots, i, j)
  {
    if NoRoomUpTo(slots, p, n) {
      forall i: nat, j: nat | j == i + n && j <= p ensures !Vacant(slots, i, j) {
        if Vacant(slots, i, j) {
          VacantCounts(slots, i, j);
        }
      }
    } else {
      var q :| 0 <= q <= p && n <= VacantBefore(slots, q);
      var i, j := q - n, q;
      assert Vacant(slots, i, j) && i + n == j;
    }
  }

  // ---------------------------------------------------------------- writing a run of entries

  /** `entries` written over the slots from `at` on.  Where one of the overwritten slots was an end
      mark, the slot behind the entries becomes one. */
  function WrittenAt(slots: seq<Slot>, at: nat, entries: seq<Slot>): (r: seq<Slot>)
    requires at + |entries| < |slots|
    ensures |r| == |slots|
  {
    var written := slots[..at] + entries + slots[at + |entries|..];
    var behind := slots[at + |entries|];
    if exists i :: at <= i < at + |entries| && IsUnusedAndEnd(slots[i])
    then written[at + |entries| := behind[0 := LastAndUnusedMark]]
    else written
  }

  /** A new entry with its long-name slots. */
  ghost predicate IsRun(longName: seq<Slot>, entry: Slot)
  {
    |longName| < MostLongEntries && IsStandard(entry) && forall i :: 0 <= i < |longName| ==> IsLong(longName[i])
  }

  /** The place a new run goes: enough vacant slots, one more than the run needs, right behind a slot
      in use. */
  ghost predicate IsPlaceFor(slots: seq<Slot>, at: nat, n: nat)
  {
    Vacant(slots, at, at + n + 1) && (at == 0 || InUse(slots[at - 1]))
  }

  lemma EndMarkStays(slots: seq<Slot>, at: nat, entries: seq<Slot>)
    requires EndsCleanly(slots) && at + |entries| < |slots|
    ensures WrittenAt(slots, at, entries) == slots[..at] + entries + slots[at + |entries|..]
  {
    var behind := slots[at + |entries|];
    if exists i :: at <= i < at + |entries| && IsUnusedAndEnd(slots[i]) {
      assert IsUnusedAndEnd(behind);
      assert behind[0 := LastAndUnusedMark] == behind;
    }
  }

  lemma PlaceIsReached(slots: seq<Slot>, at: nat, n: nat)
    requires EndsCleanly(slots) && IsPlaceFor(slots, at, n)
    ensures Reached(slots, at)
  {
    if 0 < at {
      var last := at - 1;
      forall i | 0 <= i < last ensures IsUnusedAndEnd(slots[i]) ==> IsUnusedAndEnd(slots[last]) {
      }
    }
  }

  /** The long-name slots held after a run of them. */
  ghost function Gathered(pending: seq<Slot>, run: seq<Slot>): seq<Slot>
    decreases |run|
  {
    if run == [] then pending else Gathered(Collect(pending, run[0]), run[1..])
  }

  lemma {:induction false} GatheredIs(pending: seq<Slot>, run: seq<Slot>)
    requires |pending| <= MostLongEntries
    ensures if |pending| + |run| <= MostLongEntries then Gathered(pending, run) == pending + run
            else |Gathered(pending, run)| == MostLongEntries
    decreases |run|
  {
    if run != [] {
      GatheredIs(Collect(pending, run[0]), run[1..]);
      assert pending + [run[0]] + run[1..] == pending + run;
    } else {
      assert pending + run == pending;
    }
  }

  /** A scan of a run reports its entry with the slots held before and the run's own. */
  lemma {:induction false} ScanOfRun(slots: seq<Slot>, at: nat, longName: seq<Slot>, entry: Slot, pending: seq<Slot>)
    requires IsRun(longName, entry) && at + |longName| < |slots|
    requires slots[at..at + |longName|] == longName && slots[at + |longName|] == entry
    ensures Scan(slots, at, pending)
            == [Item(entry, Gathered(pending, longName))] + Scan(slots, at + |longName| + 1, [])
    decreases |longName|
  {
    if longName != [] {
      assert slots[at] == slots[at..at + |longName|][0] == longName[0];
      assert slots[at + 1..at + |longName|] == slots[at..at + |longName|][1..] == longName[1..];
      ScanOfRun(slots, at + 1, longName[1..], entry, Collect(pending, longName[0]));
    }
  }

  /** `after` is `before` with the item put in somewhere. */
  ghost predicate AddsOne(before: seq<Item>, after: seq<Item>, item: Item)
  {
    exists k :: 0 <= k <= |before| && after == before[..k] + [item] + before[k..]
  }

  lemma AddedBetween(front: seq<Item>, item: Item, back: seq<Item>)
    ensures AddsOne(front + back, front + [item] + back, item)
  {
    var k := |front|;
    assert (front + back)[..k] == front && (front + back)[k..] == back;
  }

  /** Creating an entry adds exactly one to the listing and keeps the old ones in their old order, and
      keeps the end-mark invariant.  The long name reported with it is the one written exactly if no
      long-name slot is left over right before it. */
  lemma CreatingAddsOne(slots: seq<Slot>, at: nat, longName: seq<Slot>, entry: Slot) returns (name: seq<Slot>)
    requires EndsCleanly(slots) && IsRun(longName, entry) && IsPlaceFor(slots, at, |longName| + 1)
    ensures var after := WrittenAt(slots, at, longName + [entry]);
            EndsCleanly(after) && AddsOne(Listing(slots), Listing(after), Item(entry, name))
    ensures name == longName <==> at == 0 || !IsLong(slots[at - 1])
  {
    hide Scan, ItemsBefore, PendingAt, EndsCleanly, WrittenAt, AddsOne, Reached, IsLong, InUse;
    var n := |longName| + 1;
    var after := WrittenAt(slots, at, longName + [entry]);
    WrittenSplits(slots, at, longName, entry);
    PlaceIsReached(slots, at, n);
    ScanSplits(slots, at);
    ScanSplits(after, at);
    SamePrefix(after, slots, at);
    var held := PendingAt(slots, at);
    ScanOverVacant(slots, at, at + n, held);
    ScanOfRun(after, at, longName, entry, held);
    SameSuffix(after, slots, at + n, []);
    WrittenEndsCleanly(slots, at, longName, entry);
    name := Gathered(held, longName);
    AddedBetween(ItemsBefore(slots, at), Item(entry, name), Scan(slots, at + n, []));
    assert Listing(after) == ItemsBefore(slots, at) + [Item(entry, name)] + Scan(slots, at + n, []);
    HeldAt(slots, at);
    GatheredIs(held, longName);
  }

  // ---------------------------------------------------------------- a run written in part

  /** A scan over long-name slots reports nothing. */
  lemma {:induction false} ScanOverLong(slots: seq<Slot>, a: nat, b: nat, pending: seq<Slot>)
    returns (held: seq<Slot>)
    requires a <= b <= |slots| && forall i :: a <= i < b ==> IsLong(slots[i])
    ensures Scan(slots, a, pending) == Scan(slots, b, held)
    decreases b - a
  {
    held := pending;
    if a < b {
      held := ScanOverLong(slots, a + 1, b, Collect(pending, slots[a]));
      assert [] + Scan(slots, a + 1, Collect(pending, slots[a])) == Scan(slots, a + 1, Collect(pending, slots[a]));
    }
  }

  lemma LongEndsCleanly(slots: seq<Slot>, at: nat, longs: seq<Slot>, n: nat)
    requires EndsCleanly(slots) && IsPlaceFor(slots, at, n) && |longs| < n
    requires forall i :: 0 <= i < |longs| ==> IsLong(longs[i])
    ensures var after := slots[..at] + longs + slots[at + |longs|..];
            EndsCleanly(after) && Reached(after, at) && Reached(slots, at)
  {
    var after := slots[..at] + longs + slots[at + |longs|..];
    PlaceIsReached(slots, at, n);
    assert forall i :: 0 <= i < at ==> after[i] == slots[i];
    forall i, j | 0 <= i < j < |after| ensures IsUnusedAndEnd(after[i]) ==> IsUnusedAndEnd(after[j]) {
      if i < at + |longs| {
        assert after[i] == if i < at then slots[i] else longs[i - at];
      } else {
        assert after[i] == slots[i] && after[j] == slots[j];
      }
    }
  }

  /** Long-name slots written without their entry change nothing in the listing. */
  lemma PartOfRunIsSkipped(slots: seq<Slot>, at: nat, longs: seq<Slot>, n: nat)
    requires EndsCleanly(slots) && IsPlaceFor(slots, at, n) && |longs| < n
    requires forall i :: 0 <= i < |longs| ==> IsLong(longs[i])
    ensures var after := slots[..at] + longs + slots[at + |longs|..];
            EndsCleanly(after) && Listing(after) == Listing(slots)
  {
    hide Scan, ItemsBefore, PendingAt, EndsCleanly, Reached, IsUnusedAndEnd;
    var after, k := slots[..at] + longs + slots[at + |longs|..], |longs|;
    LongEndsCleanly(slots, at, longs, n);
    ScanSplits(slots, at);
    ScanSplits(after, at);
    assert after[..at] == slots[..at];
    SamePrefix(after, slots, at);
    var held := PendingAt(slots, at);
    ScanOverVacant(slots, at, at + n, held);
    assert forall i :: at <= i < at + k ==> after[i] == longs[i - at];
    var more := ScanOverLong(after, at, at + k, held);
    assert forall i :: at + k <= i < |slots| ==> after[i] == slots[i];
    ScanOverVacant(after, at + k, at + n, more);
    assert after[at + n..] == slots[at + n..];
    SameSuffix(after, slots, at + n, []);
  }

  /** What is where after the run is written. */
  lemma WrittenSplits(slots: seq<Slot>, at: nat, longName: seq<Slot>, entry: Slot)
    requires EndsCleanly(slots) && IsRun(longName, entry) && IsPlaceFor(slots, at, |longName| + 1)
    ensures var after, n := WrittenAt(slots, at, longName + [entry]), |longName| + 1;
            && after[..at] == slots[..at] && after[at + n..] == slots[at + n..]
            && after[at..at + |longName|] == longName && after[at + |longName|] == entry
            && Reached(after, at)
  {
    EndMarkStays(slots, at, longName + [entry]);
    PlaceIsReached(slots, at, |longName| + 1);
    var after := WrittenAt(slots, at, longName + [entry]);
    assert forall i :: 0 <= i < at ==> after[i] == slots[i];
  }

  lemma WrittenEndsCleanly(slots: seq<Slot>, at: nat, longName: seq<Slot>, entry: Slot)
    requires EndsCleanly(slots) && IsRun(longName, entry) && IsPlaceFor(slots, at, |longName| + 1)
    ensures EndsCleanly(WrittenAt(slots, at, longName + [entry]))
  {
    var entries := longName + [entry];
    var after := WrittenAt(slots, at, entries);
    EndMarkStays(slots, at, entries);
    PlaceIsReached(slots, at, |entries|);
    forall i, j | 0 <= i < j < |after| ensures IsUnusedAndEnd(after[i]) ==> IsUnusedAndEnd(after[j]) {
      if i < at + |entries| {
        assert after[i] == if i < at then slots[i] else entries[i - at];
      } else {
        assert after[i] == slots[i] && after[j] == slots[j];
      }
    }
  }

  // ---------------------------------------------------------------- removing an entry

  function Marked(s: Slot): Slot
  {
    s[0 := UnusedMark]
  }

  function MarkedEntry(s: Slot): Slot
  {
    WithFirstCluster(Marked(s), 0, 0)
  }

  /** Where the long-name run in front of slot `i` starts: it ends backwards with a slot that has the
      flag of the first one, or before a slot that holds no long name. */
  function RunStart(slots: seq<Slot>, i: nat): (start: nat)
    requires i < |slots|
    ensures start <= i && forall j :: start <= j < i ==> IsLong(slots[j])
  {
    if i == 0 || !IsLong(slots[i - 1]) then i
    else if IsFirstLong(slots[i - 1]) then i - 1
    else RunStart(slots, i - 1)
  }

  /** The backward walk from slot `i` runs into the start of the directory. */
  predicate WalkFallsOff(slots: seq<Slot>, i: nat)
    requires i < |slots|
  {
    i == 0 || (IsLong(slots[i - 1]) && !IsFirstLong(slots[i - 1]) && WalkFallsOff(slots, i - 1))
  }

  /** The slots with those from `from` up to the entry at `i` marked unused. */
  function RemovedFrom(slots: seq<Slot>, from: nat, i: nat): (r: seq<Slot>)
    requires from <= i < |slots|
    ensures |r| == |slots|
  {
    seq(|slots|, j requires 0 <= j < |slots| =>
      if j == i then MarkedEntry(slots[j]) else if from <= j < i then Marked(slots[j]) else slots[j])
  }

  /** What the marks say in numbers, and what becomes of a slot that is marked as unused. */
  lemma MarkBytes(s: Slot)
    ensures InUse(s) <==> s[0] !in {0x00, 0xE5}
    ensures IsUnused(s) <==> s[0] == 0xE5
    ensures IsUnusedAndEnd(s) <==> s[0] == 0x00
    ensures IsStandard(s) <==> s[0] !in {0x00, 0xE5} && s[11] != 0x0F
    ensures IsLong(s) <==> s[0] !in {0x00, 0xE5} && s[11] == 0x0F
    ensures IsFirstLong(s) <==> 64 <= s[0] % 128
    ensures Marked(s)[0] == 0xE5 && forall i :: 1 <= i < 32 ==> Marked(s)[i] == s[i]
    ensures forall i :: 0 <= i < 32 ==>
              MarkedEntry(s)[i] == if i == 0 then 0xE5 else if i in {20, 21, 26, 27} then 0 else s[i]
  {
    assert Encode16(0) == [0, 0];
  }

  lemma MarksAreUnused(s: Slot)
    ensures IsUnused(Marked(s)) && IsUnused(MarkedEntry(s))
  {
    SpliceSlice(Marked(s), 20, Encode16(0), 0, 1);
    SpliceSlice(Splice(Marked(s), 20, Encode16(0)), 26, Encode16(0), 0, 1);
    var once := Splice(Marked(s), 20, Encode16(0));
    assert MarkedEntry(s)[0] == MarkedEntry(s)[0..1][0];
    assert once[0] == once[0..1][0];
    assert Marked(s)[0] == Marked(s)[0..1][0];
  }

  /** Long-name slots make no items, nor do unused ones. */
  lemma {:induction false} NoItemsIn(slots: seq<Slot>, from: nat, i: nat)
    requires from <= i <= |slots| && forall j :: from <= j < i ==> !IsStandard(slots[j])
    ensures ItemsBefore(slots, i) == ItemsBefore(slots, from)
    decreases i - from
  {
    if from < i {
      NoItemsIn(slots, from, i - 1);
    }
  }

  lemma RemovedSplits(slots: seq<Slot>, from: nat, i: nat)
    requires from <= i < |slots| && Reached(slots, i)
    requires forall j :: from <= j < i ==> IsLong(slots[j])
    ensures var after := RemovedFrom(slots, from, i);
            && after[..from] == slots[..from] && after[i + 1..] == slots[i + 1..]
            && (forall j :: from <= j <= i ==> IsUnused(after[j]))
            && Reached(after, i)
  {
    forall s: Slot ensures IsUnused(Marked(s)) && IsUnused(MarkedEntry(s)) {
      MarksAreUnused(s);
    }
  }

  lemma RemovedEndsCleanly(slots: seq<Slot>, from: nat, i: nat)
    requires from <= i < |slots| && EndsCleanly(slots) && IsStandard(slots[i])
    ensures EndsCleanly(RemovedFrom(slots, from, i))
  {
    var after := RemovedFrom(slots, from, i);
    forall s: Slot ensures IsUnused(Marked(s)) && IsUnused(MarkedEntry(s)) {
      MarksAreUnused(s);
    }
    forall a, b | 0 <= a < b < |after| ensures IsUnusedAndEnd(after[a]) ==> IsUnusedAndEnd(after[b]) {
      assert from <= a <= i || after[a] == slots[a];
      assert a < i ==> !IsUnusedAndEnd(slots[a]);
    }
  }

  lemma ListingAround(slots: seq<Slot>, i: nat)
    requires i < |slots| && Reached(slots, i) && IsStandard(slots[i])
    ensures Listing(slots)
            == ItemsBefore(slots, i) + [Item(slots[i], PendingAt(slots, i))] + Scan(slots, i + 1, [])
  {
    ScanSplits(slots, i);
    assert Scan(slots, i, PendingAt(slots, i)) == [Item(slots[i], PendingAt(slots, i))] + Scan(slots, i + 1, []);
  }

  lemma ListingPast(slots: seq<Slot>, i: nat)
    requires i < |slots| && Reached(slots, i) && IsUnused(slots[i])
    ensures Listing(slots) == ItemsBefore(slots, i) + Scan(slots, i + 1, [])
  {
    hide Scan, ItemsBefore, PendingAt;
    ScanSplits(slots, i);
    ScanPast(slots, i, PendingAt(slots, i));
  }

  lemma ScanPast(slots: seq<Slot>, i: nat, pending: seq<Slot>)
    requires i < |slots| && IsUnused(slots[i])
    ensures Scan(slots, i, pending) == Scan(slots, i + 1, [])
  {
    assert [] + Scan(slots, i + 1, []) == Scan(slots, i + 1, []);
  }

  /** Removing an entry takes exactly that one out of the listing, whichever part of its long-name run
      is marked with it, and keeps the end-mark invariant. */
  lemma RemovingTakesOne(slots: seq<Slot>, from: nat, i: nat) returns (name: seq<Slot>)
    requires from <= i < |slots| && Reached(slots, i) && IsStandard(slots[i])
    requires forall j :: from <= j < i ==> IsLong(slots[j])
    ensures var after := RemovedFrom(slots, from, i);
            && (EndsCleanly(slots) ==> EndsCleanly(after))
            && AddsOne(Listing(after), Listing(slots), Item(slots[i], name))
    ensures name == PendingAt(slots, i)
  {
    var after := RemovedFrom(slots, from, i);
    RemovedSplits(slots, from, i);
    ListingAround(slots, i);
    ListingPast(after, i);
    SamePrefix(after, slots, from);
    NoItemsIn(slots, from, i);
    NoItemsIn(after, from, i);
    SameSuffix(after, slots, i + 1, []);
    name := PendingAt(slots, i);
    AddedBetween(ItemsBefore(slots, i), Item(slots[i], name), Scan(slots, i + 1, []));
    if EndsCleanly(slots) {
      RemovedEndsCleanly(slots, from, i);
    }
  }
}
