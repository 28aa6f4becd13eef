/** The FAT as an allocator: live chains, free clusters, and every run of the writes that allocate,
    extend and release. */
module Volumes {
  import opened Memory
  import opened FatLayout
  import opened Chains

  ghost predicate Disjoint(a: seq<nat>, b: seq<nat>)
  {
    forall c :: c in a ==> c !in b
  }

  ghost predicate IsFree(fat: seq<nat>, c: nat)
  {
    2 <= c < |fat| && fat[c] == EntryFree
  }

  /** Live chains are in range, without cycles, ended by the end-of-file mark, and share nothing. */
  ghost predicate WellFormed(fat: seq<nat>, live: set<seq<nat>>)
  {
    && |fat| <= EntryDefective
    && (forall a :: a in live ==> IsChain(fat, a))
    && (forall a, b :: a in live && b in live && a != b ==> Disjoint(a, b))
  }

  ghost function FreeClusters(fat: seq<nat>): set<nat>
  {
    set c: nat | c < |fat| && IsFree(fat, c)
  }

  ghost function ClustersIn(live: set<seq<nat>>): set<nat>
  {
    set a, c | a in live && c in a :: c
  }

  /** The clusters that are free or in a live chain. */
  ghost function Accounted(fat: seq<nat>, live: set<seq<nat>>): set<nat>
  {
    FreeClusters(fat) + ClustersIn(live)
  }

  function Last(chain: seq<nat>): nat
    requires chain != []
  {
    chain[|chain| - 1]
  }

  /** The first cluster of a new file or directory. */
  function Allocated(fat: seq<nat>, c: nat): seq<nat>
    requires c < |fat|
  {
    fat[c := EndOfFile]
  }

  /** A cluster linked behind the last one of a chain, then marked as the new end. */
  function Extended(fat: seq<nat>, last: nat, c: nat): seq<nat>
    requires last < |fat| && c < |fat|
  {
    fat[last := c][c := EndOfFile]
  }

  // ---------------------------------------------------------------- chains under updates

  lemma ChainIsNotFree(fat: seq<nat>, chain: seq<nat>, c: nat)
    requires IsChain(fat, chain) && IsFree(fat, c)
    ensures c !in chain
  {
    if c in chain {
      var i :| 0 <= i < |chain| && chain[i] == c;
      LinkAt(fat, chain, i);
    }
  }

  /** A chain whose entries are all the same in another FAT is a chain there too. */
  lemma ChainFramed(fat: seq<nat>, other: seq<nat>, chain: seq<nat>)
    requires IsChain(fat, chain) && |other| == |fat|
    requires forall c :: c in chain ==> 0 <= c < |fat| && other[c] == fat[c]
    ensures IsChain(other, chain)
  {
    forall i | 0 <= i < |chain| ensures other[chain[i]] == fat[chain[i]] {
      assert chain[i] in chain;
    }
    assert Linked(other, chain);
  }

  lemma ExtendChain(fat: seq<nat>, chain: seq<nat>, c: nat)
    requires IsChain(fat, chain) && IsFree(fat, c)
    ensures IsChain(Extended(fat, Last(chain), c), chain + [c])
  {
    RelinkChain(fat, chain, |chain| - 1, c);
    assert chain[..|chain|] == chain;
  }

  /** A free cluster linked behind any cluster of a chain makes a chain of it and those before it. */
  lemma RelinkChain(fat: seq<nat>, chain: seq<nat>, i: nat, c: nat)
    requires IsChain(fat, chain) && IsFree(fat, c) && i < |chain|
    ensures chain[i] < |fat| && IsChain(Extended(fat, chain[i], c), chain[..i + 1] + [c])
  {
    ChainIsNotFree(fat, chain, c);
    LinkAt(fat, chain, i);
    var after, longer := Extended(fat, chain[i], c), chain[..i + 1] + [c];
    forall j | 0 <= j < |longer| - 1 ensures after[longer[j]] == longer[j + 1] {
      LinkAt(fat, chain, j);
      assert chain[j] in chain;
    }
    assert Distinct(longer) by {
      forall j, k | 0 <= j < k < |longer| ensures longer[j] != longer[k] {
        assert chain[j] in chain;
      }
    }
  }

  /** What lies behind the first `k` clusters of a chain. */
  ghost function Behind(chain: seq<nat>, k: nat): set<seq<nat>>
  {
    if k < |chain| then {chain[k..]} else {}
  }

  /** A chain ended behind its first clusters makes two. */
  lemma CutChain(fat: seq<nat>, a: seq<nat>, i: nat)
    requires IsChain(fat, a) && i + 1 < |a|
    ensures a[i] < |fat| && IsChain(fat[a[i] := EndOfFile], a[..i + 1]) && IsChain(fat[a[i] := EndOfFile], a[i + 1..])
    ensures Disjoint(a[..i + 1], a[i + 1..]) && Disjoint(a[i + 1..], a[..i + 1]) && a[..i + 1] != a[i + 1..]
    ensures forall c :: c in a <==> c in a[..i + 1] || c in a[i + 1..]
  {
    LinkAt(fat, a, i);
    var after, front, back := fat[a[i] := EndOfFile], a[..i + 1], a[i + 1..];
    PartsLinked(fat, a, i);
    PartsApart(a, i);
    assert front[0] in front;
  }

  lemma PartsLinked(fat: seq<nat>, a: seq<nat>, i: nat)
    requires IsChain(fat, a) && i + 1 < |a| && a[i] < |fat|
    ensures IsChain(fat[a[i] := EndOfFile], a[..i + 1]) && IsChain(fat[a[i] := EndOfFile], a[i + 1..])
  {
    var after, front, back := fat[a[i] := EndOfFile], a[..i + 1], a[i + 1..];
    forall j | 0 <= j < i ensures after[front[j]] == front[j + 1] {
      assert fat[a[j]] == a[j + 1];
    }
    forall j | 0 <= j < |back| ensures back[j] == a[i + 1 + j] && after[back[j]] == fat[a[i + 1 + j]] {
    }
    assert Distinct(front) && Distinct(back);
  }

  lemma PartsApart(a: seq<nat>, i: nat)
    requires Distinct(a) && i < |a|
    ensures Disjoint(a[..i + 1], a[i + 1..]) && Disjoint(a[i + 1..], a[..i + 1])
    ensures forall c :: c in a <==> c in a[..i + 1] || c in a[i + 1..]
  {
    assert a == a[..i + 1] + a[i + 1..];
  }

  // ---------------------------------------------------------------- the steps

  /** What the file system writes into the FAT, one entry at a time: a free cluster marked as the only one of
      a new chain; the last cluster of a chain linked to a free one; a cluster in the middle of a chain linked
      to a free one, which cuts off those behind it; the cluster linked marked as the new end; the link taken
      back instead; the first cluster of a chain set free.  A write that fails is no step: the run goes on
      without it, or ends there. */
  datatype Step =
    | Allocate(c: nat) | Link(chain: seq<nat>, c: nat) | Cut(chain: seq<nat>, i: nat, c: nat) | Mark | Unlink
    | Free(chain: seq<nat>)
  {
    /** The step leaves a link open. */
    predicate Opens()
    {
      Link? || Cut?
    }
  }

  /** A link that leads to a cluster not marked yet. */
  datatype Half = Half(chain: seq<nat>, c: nat)

  /** A FAT with its live chains, and the link that is open, if there is one. */
  datatype Volume = Volume(fat: seq<nat>, live: set<seq<nat>>, open: Option<Half>)

  ghost predicate Enabled(v: Volume, s: Step)
  {
    match s
    case Allocate(c) => v.open.None? && IsFree(v.fat, c)
    case Link(a, c) => v.open.None? && a in v.live && a != [] && Last(a) < |v.fat| && IsFree(v.fat, c)
    case Cut(a, i, c) => v.open.None? && a in v.live && i + 1 < |a| && a[i] < |v.fat| && IsFree(v.fat, c)
    case Mark => v.open.Some? && v.open.value.c < |v.fat|
    case Unlink => v.open.Some? && v.open.value.chain != [] && Last(v.open.value.chain) < |v.fat|
    case Free(a) => a in v.live && a != [] && a[0] < |v.fat| && (v.open.Some? ==> v.open.value.chain != a)
  }

  /** What is left of a chain without its first cluster. */
  ghost function Rest(a: seq<nat>): set<seq<nat>>
    requires a != []
  {
    if |a| == 1 then {} else {a[1..]}
  }

  ghost function Apply(v: Volume, s: Step): Volume
    requires Enabled(v, s)
  {
    match s
    case Allocate(c) => Volume(v.fat[c := EndOfFile], v.live + {[c]}, None)
    case Link(a, c) => Volume(v.fat[Last(a) := c], v.live, Some(Half(a, c)))
    case Cut(a, i, c) =>
      Volume(v.fat[a[i] := c], v.live - {a} + {a[..i + 1], a[i + 1..]}, Some(Half(a[..i + 1], c)))
    case Mark =>
      var a, c := v.open.value.chain, v.open.value.c;
      Volume(v.fat[c := EndOfFile], v.live - {a} + {a + [c]}, None)
    case Unlink => Volume(v.fat[Last(v.open.value.chain) := EndOfFile], v.live, None)
    case Free(a) => Volume(v.fat[a[0] := EntryFree], v.live - {a} + Rest(a), v.open)
  }

  /** Well formed, or well formed but for the open link, which leads to a free cluster. */
  ghost predicate Sound(v: Volume)
  {
    match v.open
    case None => WellFormed(v.fat, v.live)
    case Some(h) =>
      && h.chain in v.live && h.chain != [] && Last(h.chain) < |v.fat|
      && WellFormed(v.fat[Last(h.chain) := EndOfFile], v.live)
      && v.fat[Last(h.chain)] == h.c && IsFree(v.fat, h.c)
  }

  // ---------------------------------------------------------------- one step

  lemma AllocateKeeps(fat: seq<nat>, live: set<seq<nat>>, c: nat)
    requires WellFormed(fat, live) && IsFree(fat, c)
    ensures WellFormed(Allocated(fat, c), live + {[c]})
    ensures Accounted(Allocated(fat, c), live + {[c]}) == Accounted(fat, live)
    ensures c !in ClustersIn(live)
  {
    var after := Allocated(fat, c);
    forall a | a in live ensures IsChain(after, a) && c !in a {
      ChainIsNotFree(fat, a, c);
      ChainFramed(fat, after, a);
    }
    assert IsChain(after, [c]);
    forall d ensures d in ClustersIn(live + {[c]}) <==> d in ClustersIn(live) || d == c {
      assert d == c ==> d in [c];
    }
    forall d: nat | d < |fat| ensures IsFree(fat, d) <==> IsFree(after, d) || d == c {
    }
  }

  lemma ExtendKeeps(fat: seq<nat>, live: set<seq<nat>>, a: seq<nat>, c: nat)
    requires WellFormed(fat, live) && a in live && IsFree(fat, c)
    ensures Last(a) < |fat| && WellFormed(Extended(fat, Last(a), c), live - {a} + {a + [c]})
    ensures Accounted(Extended(fat, Last(a), c), live - {a} + {a + [c]}) == Accounted(fat, live)
    ensures c !in ClustersIn(live)
  {
    LinkAt(fat, a, |a| - 1);
    ExtendChain(fat, a, c);
    var after, grown := Extended(fat, Last(a), c), live - {a} + {a + [c]};
    assert Last(a) in a;
    forall b | b in live ensures c !in b {
      ChainIsNotFree(fat, b, c);
    }
    forall b | b in live && b != a ensures IsChain(after, b) && Disjoint(b, a + [c]) && Disjoint(a + [c], b) {
      assert Disjoint(b, a) && Disjoint(a, b);
      ChainFramed(fat, after, b);
    }
    forall d ensures d in ClustersIn(grown) <==> d in ClustersIn(live) || d == c {
      if d in ClustersIn(live) {
        var b :| b in live && d in b;
        assert b == a ==> d in a + [c];
      }
      assert c in a + [c];
    }
    forall d: nat | d < |fat| ensures IsFree(fat, d) <==> IsFree(after, d) || d == c {
    }
  }

  /** A chain without its first cluster. */
  lemma FirstFreed(fat: seq<nat>, a: seq<nat>)
    requires IsChain(fat, a)
    ensures a[0] < |fat| && forall b :: b in Rest(a) ==> IsChain(fat[a[0] := EntryFree], b)
  {
    if 1 < |a| {
      var b := a[1..];
      assert forall i :: 0 <= i < |b| ==> b[i] == a[i + 1];
      assert Linked(fat[a[0] := EntryFree], b);
    }
  }

  /** The clusters of live chains, before and after the first one of `a` is taken off. */
  lemma FirstTakenOff(live: set<seq<nat>>, a: seq<nat>)
    requires a in live && a != []
    ensures ClustersIn(live) == ClustersIn(live - {a} + Rest(a)) + {a[0]}
  {
    var rest := live - {a} + Rest(a);
    forall d | d in ClustersIn(rest) ensures d in ClustersIn(live) {
      var b :| b in rest && d in b;
      assert b in live || (b == a[1..] && d in a);
    }
    forall d | d in ClustersIn(live) && d != a[0] ensures d in ClustersIn(rest) {
      var b :| b in live && d in b;
      if b == a {
        var i :| 0 <= i < |a| && a[i] == d;
        assert a[1..][i - 1] == d;
        assert d in a[1..] && a[1..] in rest;
      } else {
        assert b in rest && d in b;
      }
    }
    assert a[0] in a;
  }

  lemma FreeKeeps(fat: seq<nat>, live: set<seq<nat>>, a: seq<nat>)
    requires WellFormed(fat, live) && a in live
    ensures a != [] && 2 <= a[0] < |fat| && WellFormed(fat[a[0] := EntryFree], live - {a} + Rest(a))
    ensures Accounted(fat[a[0] := EntryFree], live - {a} + Rest(a)) == Accounted(fat, live)
  {
    LinkAt(fat, a, 0);
    FirstFreed(fat, a);
    var after, rest := fat[a[0] := EntryFree], live - {a} + Rest(a);
    forall b | b in live && b != a
      ensures IsChain(after, b) && forall x :: x in Rest(a) ==> Disjoint(b, x) && Disjoint(x, b)
    {
      assert Disjoint(b, a) && Disjoint(a, b);
      ChainFramed(fat, after, b);
    }
    FirstTakenOff(live, a);
    forall d: nat | d < |fat| ensures IsFree(after, d) <==> IsFree(fat, d) || d == a[0] {
    }
  }

  /** The two parts of a chain cut in the middle. */
  lemma CutKeeps(fat: seq<nat>, live: set<seq<nat>>, a: seq<nat>, i: nat)
    requires WellFormed(fat, live) && a in live && i + 1 < |a|
    ensures 2 <= a[i] < |fat| && fat[a[i]] != EntryFree
    ensures WellFormed(fat[a[i] := EndOfFile], live - {a} + {a[..i + 1], a[i + 1..]})
  {
    LinkAt(fat, a, i);
    CutChain(fat, a, i);
    var after := fat[a[i] := EndOfFile];
    assert a[i] in a;
    forall b | b in live && b != a
      ensures IsChain(after, b) && forall x :: x in {a[..i + 1], a[i + 1..]} ==> Disjoint(b, x) && Disjoint(x, b)
    {
      assert Disjoint(b, a) && Disjoint(a, b);
      ChainFramed(fat, after, b);
    }
  }

  lemma CutClusters(live: set<seq<nat>>, a: seq<nat>, i: nat)
    requires a in live && i < |a|
    ensures ClustersIn(live - {a} + {a[..i + 1], a[i + 1..]}) == ClustersIn(live)
  {
    var parts := live - {a} + {a[..i + 1], a[i + 1..]};
    assert a == a[..i + 1] + a[i + 1..];
    forall d | d in ClustersIn(live) ensures d in ClustersIn(parts) {
      var b :| b in live && d in b;
      assert b == a ==> d in a[..i + 1] || d in a[i + 1..];
      assert a[..i + 1] in parts && a[i + 1..] in parts && (b != a ==> b in parts);
    }
    forall d | d in ClustersIn(parts) ensures d in ClustersIn(live) {
      var b :| b in parts && d in b;
      assert b in live || d in a;
    }
  }

  /** Every step keeps the volume sound, and every cluster stays free or in a chain. */
  lemma StepKeeps(v: Volume, s: Step)
    requires Sound(v) && Enabled(v, s)
    ensures Sound(Apply(v, s)) && Accounted(Apply(v, s).fat, Apply(v, s).live) == Accounted(v.fat, v.live)
  {
    hide WellFormed, Accounted;
    match s
    case Allocate(c) => AllocateKeeps(v.fat, v.live, c);
    case Link(a, c) =>
      LastIsEnd(v.fat, v.live, a);
      ReplacedInUse(v.fat, Last(a), c, v.live);
      assert v.fat[Last(a) := c][Last(a) := EndOfFile] == v.fat;
    case Cut(a, i, c) => CutIsSound(v, a, i, c);
    case Mark =>
      var h, was := v.open.value, v.fat[Last(v.open.value.chain) := EndOfFile];
      LastIsEnd(was, v.live, h.chain);
      ExtendKeeps(was, v.live, h.chain, h.c);
      ReplacedInUse(was, Last(h.chain), h.c, v.live);
      assert was[Last(h.chain) := h.c] == v.fat;
    case Unlink =>
      var h, was := v.open.value, v.fat[Last(v.open.value.chain) := EndOfFile];
      LastIsEnd(was, v.live, h.chain);
      ReplacedInUse(was, Last(h.chain), h.c, v.live);
      assert was[Last(h.chain) := h.c] == v.fat;
    case Free(a) =>
      if v.open.None? {
        FreeKeeps(v.fat, v.live, a);
      } else {
        FreeBesideOpen(v, a);
      }
  }

  lemma CutIsSound(v: Volume, a: seq<nat>, i: nat, c: nat)
    requires Sound(v) && Enabled(v, Cut(a, i, c))
    ensures var w := Apply(v, Cut(a, i, c)); Sound(w) && Accounted(w.fat, w.live) == Accounted(v.fat, v.live)
  {
    CutKeeps(v.fat, v.live, a, i);
    CutClusters(v.live, a, i);
    var after := v.fat[a[i] := c];
    assert after[a[i] := EndOfFile] == v.fat[a[i] := EndOfFile];
    forall d: nat | d < |v.fat| ensures IsFree(after, d) <==> IsFree(v.fat, d) {
    }
    assert Last(a[..i + 1]) == a[i] && a[..i + 1] in Apply(v, Cut(a, i, c)).live;
  }

  lemma LastIsEnd(fat: seq<nat>, live: set<seq<nat>>, a: seq<nat>)
    requires WellFormed(fat, live) && a in live
    ensures a != [] && 2 <= Last(a) < |fat| && fat[Last(a)] == EndOfFile
    ensures forall c :: IsFree(fat, c) ==> c != Last(a)
  {
    LinkAt(fat, a, |a| - 1);
  }

  /** An entry in use that gets another value of a cluster in use frees nothing. */
  lemma ReplacedInUse(fat: seq<nat>, last: nat, c: nat, live: set<seq<nat>>)
    requires last < |fat| && fat[last] == EndOfFile && 2 <= c
    ensures Accounted(fat[last := c], live) == Accounted(fat, live)
  {
    forall d: nat | d < |fat| ensures IsFree(fat[last := c], d) <==> IsFree(fat, d) {
    }
  }

  lemma FreeBesideOpen(v: Volume, a: seq<nat>)
    requires Sound(v) && v.open.Some? && Enabled(v, Free(a))
    ensures Sound(Apply(v, Free(a)))
    ensures Accounted(Apply(v, Free(a)).fat, Apply(v, Free(a)).live) == Accounted(v.fat, v.live)
  {
    var h, was := v.open.value, v.fat[Last(v.open.value.chain) := EndOfFile];
    var last := Last(h.chain);
    FreeKeeps(was, v.live, a);
    assert last in h.chain && a[0] in a && Disjoint(a, h.chain);
    var after := was[a[0] := EntryFree];
    assert v.fat[a[0] := EntryFree][last := EndOfFile] == after;
    assert was[last := h.c] == v.fat && after[last := h.c] == v.fat[a[0] := EntryFree];
    LastIsEnd(was, v.live, h.chain);
    ReplacedInUse(was, last, h.c, v.live);
    ReplacedInUse(after, last, h.c, v.live - {a} + Rest(a));
  }

  // ---------------------------------------------------------------- runs

  ghost predicate CanRun(v: Volume, steps: seq<Step>)
    decreases |steps|
  {
    steps == [] || (Enabled(v, steps[0]) && CanRun(Apply(v, steps[0]), steps[1..]))
  }

  ghost function Outcome(v: Volume, steps: seq<Step>): Volume
    requires CanRun(v, steps)
    decreases |steps|
  {
    if steps == [] then v else Outcome(Apply(v, steps[0]), steps[1..])
  }

  /** The last link has been neither marked nor taken back. */
  ghost predicate IsOpen(steps: seq<Step>)
  {
    OpenFrom(false, steps)
  }

  ghost predicate OpenFrom(open: bool, steps: seq<Step>)
    decreases |steps|
  {
    if steps == [] then open
    else
      var s := steps[0];
      OpenFrom(if s.Opens() then true else if s.Mark? || s.Unlink? then false else open, steps[1..])
  }

  lemma {:induction false} RunKeeps(v: Volume, steps: seq<Step>)
    requires Sound(v) && CanRun(v, steps)
    ensures Sound(Outcome(v, steps))
    ensures Accounted(Outcome(v, steps).fat, Outcome(v, steps).live) == Accounted(v.fat, v.live)
    ensures Outcome(v, steps).open.Some? == OpenFrom(v.open.Some?, steps)
    decreases |steps|
  {
    hide Sound, Accounted;
    if steps != [] {
      StepKeeps(v, steps[0]);
      RunKeeps(Apply(v, steps[0]), steps[1..]);
    }
  }

  lemma {:induction false} RunsJoin(v: Volume, a: seq<Step>, b: seq<Step>)
    requires CanRun(v, a) && CanRun(Outcome(v, a), b)
    ensures CanRun(v, a + b) && Outcome(v, a + b) == Outcome(Outcome(v, a), b)
    decreases |a|
  {
    if a == [] {
      assert a + b == b;
    } else {
      assert (a + b)[0] == a[0] && (a + b)[1..] == a[1..] + b;
      RunsJoin(Apply(v, a[0]), a[1..], b);
    }
  }

  /** An open link leads to no end. */
  lemma OpenIsIllFormed(v: Volume)
    requires Sound(v)
    ensures WellFormed(v.fat, v.live) <==> v.open.None?
  {
    if v.open.Some? {
      ChainEnds(v.fat, v.open.value.chain);
    }
  }

  lemma ChainEnds(fat: seq<nat>, a: seq<nat>)
    requires a != []
    ensures IsChain(fat, a) ==> Last(a) < |fat| && fat[Last(a)] == EndOfFile
  {
  }

  // ---------------------------------------------------------------- other chains

  ghost function Beside(v: Volume, others: set<seq<nat>>): Volume
  {
    v.(live := v.live + others)
  }

  lemma StepFramed(v: Volume, others: set<seq<nat>>, s: Step)
    requires Sound(Beside(v, others)) && v.live !! others && Enabled(v, s)
    requires v.open.Some? ==> v.open.value.chain in v.live
    ensures Enabled(Beside(v, others), s) && Apply(Beside(v, others), s) == Beside(Apply(v, s), others)
    ensures Apply(v, s).live !! others
    ensures Apply(v, s).open.Some? ==> Apply(v, s).open.value.chain in Apply(v, s).live
  {
    hide Sound, IsFree;
    var w := Beside(v, others);
    match s
    case Allocate(c) =>
      NewIsApart(w, c);
      assert v.live + others + {[c]} == v.live + {[c]} + others;
    case Link(_, _) =>
    case Cut(a, i, _) =>
      PartsAreNew(w, others, a, i);
      ReplacedBeside(v.live, others, a, {a[..i + 1], a[i + 1..]});
    case Mark =>
      var h := v.open.value;
      LongerIsNew(w, others);
      ReplacedBeside(v.live, others, h.chain, {h.chain + [h.c]});
    case Unlink =>
    case Free(a) =>
      RestIsNew(w, others, a);
      ReplacedBeside(v.live, others, a, Rest(a));
  }

  lemma ReplacedBeside(live: set<seq<nat>>, others: set<seq<nat>>, a: seq<nat>, parts: set<seq<nat>>)
    requires a in live && live !! others && parts !! others
    ensures live + others - {a} + parts == live - {a} + parts + others && live - {a} + parts !! others
  {
  }

  lemma NewIsApart(w: Volume, c: nat)
    requires Sound(w) && w.open.None? && IsFree(w.fat, c)
    ensures [c] !in w.live
  {
    NotAmong(w.fat, w.live, c);
    assert c in [c];
  }

  lemma LongerIsNew(w: Volume, others: set<seq<nat>>)
    requires Sound(w) && w.open.Some? && others <= w.live
    ensures w.open.value.chain + [w.open.value.c] !in others
  {
    var h, was := w.open.value, w.fat[Last(w.open.value.chain) := EndOfFile];
    LastIsEnd(was, w.live, h.chain);
    NotAmong(was, w.live, h.c);
    assert h.c in h.chain + [h.c];
  }

  lemma NotAmong(fat: seq<nat>, live: set<seq<nat>>, c: nat)
    requires WellFormed(fat, live) && IsFree(fat, c)
    ensures forall a :: a in live ==> c !in a
  {
    forall a | a in live ensures c !in a {
      ChainIsNotFree(fat, a, c);
    }
  }

  lemma RestIsNew(w: Volume, others: set<seq<nat>>, a: seq<nat>)
    requires Sound(w) && a in w.live && a !in others && others <= w.live && a != []
    ensures Rest(a) !! others
  {
    forall x | x in Rest(a) ensures x !in others {
      assert x[0] == a[1] && x[0] in a && x[0] in x;
      assert !Disjoint(a, x) && x != a;
    }
  }

  lemma PartsAreNew(w: Volume, others: set<seq<nat>>, a: seq<nat>, i: nat)
    requires Sound(w) && w.open.None? && a in w.live && a !in others && others <= w.live && i + 1 < |a|
    ensures {a[..i + 1], a[i + 1..]} !! others
  {
    forall x | x in {a[..i + 1], a[i + 1..]} ensures x !in others {
      assert x[0] in x && x[0] in a && |x| < |a|;
      assert !Disjoint(a, x) && x != a;
    }
  }

  lemma {:induction false} RunFramed(v: Volume, others: set<seq<nat>>, steps: seq<Step>)
    requires Sound(Beside(v, others)) && v.live !! others && CanRun(v, steps)
    requires v.open.Some? ==> v.open.value.chain in v.live
    ensures CanRun(Beside(v, others), steps)
    ensures Outcome(Beside(v, others), steps) == Beside(Outcome(v, steps), others)
    ensures var w := Outcome(v, steps);
            w.live !! others && (w.open.Some? ==> w.open.value.chain in w.live)
    decreases |steps|
  {
    hide Sound, Apply, Enabled, Beside;
    if steps != [] {
      StepFramed(v, others, steps[0]);
      StepKeeps(Beside(v, others), steps[0]);
      RunFramed(Apply(v, steps[0]), others, steps[1..]);
    }
  }

  // ---------------------------------------------------------------- operations

  /** An operation that starts with the chains `own` in the FAT `fat0` makes these steps, and ends with the
      FAT `fat1` and the chains `after`. */
  ghost predicate Leads(fat0: seq<nat>, own: set<seq<nat>>, steps: seq<Step>, fat1: seq<nat>, after: set<seq<nat>>)
  {
    var v := Volume(fat0, own, None);
    CanRun(v, steps) && Outcome(v, steps).fat == fat1 && Outcome(v, steps).live == after
  }

  lemma NoSteps(fat: seq<nat>, own: set<seq<nat>>)
    ensures Leads(fat, own, [], fat, own) && !IsOpen([])
  {
  }

  lemma OneStep(v: Volume, s: Step)
    requires Enabled(v, s)
    ensures CanRun(v, [s]) && Outcome(v, [s]) == Apply(v, s) && IsOpen([s]) == s.Opens()
  {
    assert [s][1..] == [];
    assert CanRun(Apply(v, s), []) && Outcome(Apply(v, s), []) == Apply(v, s);
    assert OpenFrom(s.Opens(), []) == s.Opens();
  }

  /** Operations one after the other. */
  lemma LeadsOn(fat0: seq<nat>, own0: set<seq<nat>>, a: seq<Step>, fat1: seq<nat>, own1: set<seq<nat>>, b: seq<Step>,
                fat2: seq<nat>, own2: set<seq<nat>>)
    requires Leads(fat0, own0, a, fat1, own1) && !IsOpen(a) && Leads(fat1, own1, b, fat2, own2)
    ensures Leads(fat0, own0, a + b, fat2, own2) && IsOpen(a + b) == IsOpen(b)
  {
    OpenAtEnd(Volume(fat0, own0, None), a);
    RunsJoin(Volume(fat0, own0, None), a, b);
    OpenJoins(false, a, b);
  }

  lemma {:induction false} OpenAtEnd(v: Volume, steps: seq<Step>)
    requires CanRun(v, steps)
    ensures Outcome(v, steps).open.Some? == OpenFrom(v.open.Some?, steps)
    decreases |steps|
  {
    if steps != [] {
      OpenAtEnd(Apply(v, steps[0]), steps[1..]);
    }
  }

  lemma {:induction false} OpenJoins(open: bool, a: seq<Step>, b: seq<Step>)
    ensures OpenFrom(open, a + b) == OpenFrom(OpenFrom(open, a), b)
    decreases |a|
  {
    if a == [] {
      assert a + b == b;
    } else {
      assert (a + b)[0] == a[0] && (a + b)[1..] == a[1..] + b;
      OpenJoins(if a[0].Opens() then true else if a[0].Mark? || a[0].Unlink? then false else open, a[1..], b);
    }
  }

  /** The chain of a file or directory, if it has clusters. */
  ghost function Owned(chain: seq<nat>): set<seq<nat>>
  {
    if chain == [] then {} else {chain}
  }

  lemma AllocateSteps(fat: seq<nat>, own: set<seq<nat>>, c: nat)
    requires IsFree(fat, c)
    ensures Leads(fat, own, [Allocate(c)], Allocated(fat, c), own + {[c]}) && !IsOpen([Allocate(c)])
  {
    OneStep(Volume(fat, own, None), Allocate(c));
  }

  /** A link alone, a link and the mark, and a link taken back. */
  lemma LinkSteps(fat: seq<nat>, chain: seq<nat>, c: nat)
    requires chain != [] && Last(chain) < |fat| && IsFree(fat, c)
    ensures Leads(fat, Owned(chain), [Link(chain, c)], fat[Last(chain) := c], Owned(chain))
    ensures IsOpen([Link(chain, c)])
    ensures Leads(fat, Owned(chain), [Link(chain, c), Mark], Extended(fat, Last(chain), c), Owned(chain + [c]))
    ensures !IsOpen([Link(chain, c), Mark])
    ensures Leads(fat, Owned(chain), [Link(chain, c), Unlink], fat[Last(chain) := c][Last(chain) := EndOfFile],
                  Owned(chain))
    ensures !IsOpen([Link(chain, c), Unlink])
  {
    var v, link := Volume(fat, Owned(chain), None), Link(chain, c);
    OneStep(v, link);
    OneStep(Apply(v, link), Mark);
    OneStep(Apply(v, link), Unlink);
    RunsJoin(v, [link], [Mark]);
    RunsJoin(v, [link], [Unlink]);
    assert [link, Mark] == [link] + [Mark] && [link, Unlink] == [link] + [Unlink];
    OpenJoins(false, [link], [Mark]);
    OpenJoins(false, [link], [Unlink]);
    OpenAfter(Mark);
    OpenAfter(Unlink);
    assert {chain} - {chain} + {chain + [c]} == {chain + [c]};
  }

  /** The link from cluster number `i` of a chain to a new one. */
  function LinkFrom(chain: seq<nat>, i: nat, c: nat): Step
  {
    if i + 1 < |chain| then Cut(chain, i, c) else Link(chain, c)
  }

  /** Such a link alone, and with its mark.  What lay behind it is a chain of its own that nothing leads to. */
  lemma LinkFromSteps(fat: seq<nat>, chain: seq<nat>, i: nat, c: nat)
    requires IsChain(fat, chain) && i < |chain| && IsFree(fat, c)
    ensures chain[i] < |fat|
    ensures var s, rest := LinkFrom(chain, i, c), Behind(chain, i + 1);
            && Leads(fat, Owned(chain), [s], fat[chain[i] := c], Owned(chain[..i + 1]) + rest)
            && IsOpen([s]) && Owned(chain[..i + 1]) !! rest
            && Leads(fat, Owned(chain), [s, Mark], Extended(fat, chain[i], c), Owned(chain[..i + 1] + [c]) + rest)
            && !IsOpen([s, Mark]) && Owned(chain[..i + 1] + [c]) !! rest
  {
    LinkAt(fat, chain, i);
    if i + 1 == |chain| {
      assert chain[..i + 1] == chain;
      LinkSteps(fat, chain, c);
      assert Owned(chain) + {} == Owned(chain) && Owned(chain + [c]) + {} == Owned(chain + [c]);
    } else {
      CutSteps(fat, chain, i, c);
    }
  }

  lemma CutSteps(fat: seq<nat>, chain: seq<nat>, i: nat, c: nat)
    requires IsChain(fat, chain) && i + 1 < |chain| && IsFree(fat, c)
    ensures chain[i] < |fat|
    ensures var s, front, rest := Cut(chain, i, c), chain[..i + 1], chain[i + 1..];
            && Leads(fat, Owned(chain), [s], fat[chain[i] := c], {front} + {rest}) && IsOpen([s]) && front != rest
            && Leads(fat, Owned(chain), [s, Mark], Extended(fat, chain[i], c), {front + [c]} + {rest})
            && !IsOpen([s, Mark]) && front + [c] != rest
  {
    CutChain(fat, chain, i);
    ChainIsNotFree(fat, chain, c);
    var v, s, front, rest := Volume(fat, Owned(chain), None), Cut(chain, i, c), chain[..i + 1], chain[i + 1..];
    assert chain in Owned(chain);
    OneStep(v, s);
    assert {chain} - {chain} + {front, rest} == {front} + {rest};
    OneStep(Apply(v, s), Mark);
    RunsJoin(v, [s], [Mark]);
    assert [s, Mark] == [s] + [Mark];
    OpenJoins(false, [s], [Mark]);
    OpenAfter(Mark);
    assert ({front} + {rest}) - {front} + {front + [c]} == {front + [c]} + {rest};
    assert (front + [c])[|front|] == c && c !in rest;
  }

  lemma OpenAfter(s: Step)
    ensures OpenFrom(true, [s]) == !(s.Mark? || s.Unlink?)
  {
    assert [s][1..] == [];
    assert OpenFrom(false, []) == false && OpenFrom(true, []) == true;
  }

  /** Other chains do not get in the way of an operation. */
  lemma LeadsBeside(fat0: seq<nat>, own0: set<seq<nat>>, steps: seq<Step>, fat1: seq<nat>, own1: set<seq<nat>>,
                    others: set<seq<nat>>)
    requires WellFormed(fat0, own0 + others) && own0 !! others && Leads(fat0, own0, steps, fat1, own1)
    ensures Leads(fat0, own0 + others, steps, fat1, own1 + others) && own1 !! others
  {
    hide WellFormed, CanRun, Outcome;
    RunFramed(Volume(fat0, own0, None), others, steps);
  }

  /** A new chain of one cluster set free again after an operation on other chains, even one that left a link
      open. */
  lemma LeadsThenFree(fat0: seq<nat>, own0: set<seq<nat>>, steps: seq<Step>, fat1: seq<nat>,
                      own1: set<seq<nat>>, c: nat)
    requires WellFormed(fat0, own0 + {[c]}) && [c] !in own0 && Leads(fat0, own0, steps, fat1, own1) && c < |fat1|
    ensures Leads(fat0, own0 + {[c]}, steps + [Free([c])], fat1[c := EntryFree], own1)
    ensures IsOpen(steps + [Free([c])]) == IsOpen(steps)
  {
    hide WellFormed, CanRun, Outcome;
    var v, s := Volume(fat0, own0, None), Free([c]);
    RunFramed(v, {[c]}, steps);
    var w := Outcome(Beside(v, {[c]}), steps);
    OneStep(w, s);
    RunsJoin(Beside(v, {[c]}), steps, [s]);
    OpenJoins(false, steps, [s]);
    OpenStays(IsOpen(steps), s);
    assert own1 + {[c]} - {[c]} + Rest([c]) == own1;
  }

  lemma OpenStays(open: bool, s: Step)
    requires s.Free? || s.Allocate?
    ensures OpenFrom(open, [s]) == open
  {
    assert [s][1..] == [];
    assert OpenFrom(open, []) == open;
  }

  /** The chains are in use and share nothing. */
  ghost predicate Apart(fat: seq<nat>, live: set<seq<nat>>)
  {
    && (forall a, c :: a in live && c in a ==> !IsFree(fat, c))
    && (forall a, b :: a in live && b in live && a != b ==> Disjoint(a, b))
    && forall a :: a in live ==> a != []
  }

  lemma SoundIsApart(v: Volume)
    requires Sound(v)
    ensures Apart(v.fat, v.live)
  {
    var closed := if v.open.Some? then v.fat[Last(v.open.value.chain) := EndOfFile] else v.fat;
    forall a, c | a in v.live && c in a ensures !IsFree(v.fat, c) {
      var i :| 0 <= i < |a| && a[i] == c;
      LinkAt(closed, a, i);
    }
  }

  /** Whatever an operation does, every cluster stays free or in a chain, and all chains, its own and the others,
      are well formed afterwards exactly if it has not left a link open. */
  lemma OperationKeeps(fat0: seq<nat>, own0: set<seq<nat>>, steps: seq<Step>, fat1: seq<nat>, own1: set<seq<nat>>,
                       others: set<seq<nat>>)
    requires WellFormed(fat0, own0 + others) && own0 !! others && Leads(fat0, own0, steps, fat1, own1)
    ensures own1 !! others && Accounted(fat1, own1 + others) == Accounted(fat0, own0 + others)
    ensures (WellFormed(fat1, own1 + others) <==> !IsOpen(steps)) && Apart(fat1, own1 + others)
  {
    hide WellFormed, Accounted, CanRun, Outcome, Apart;
    var v := Volume(fat0, own0, None);
    RunFramed(v, others, steps);
    RunKeeps(Beside(v, others), steps);
    OpenIsIllFormed(Outcome(Beside(v, others), steps));
    SoundIsApart(Outcome(Beside(v, others), steps));
  }

  /** Of the clusters that are free or in chains, those of the chains `lost` are missing when these no longer
      count: there are none missing exactly if there are no such chains. */
  lemma NoneMissingExactlyIf(fat: seq<nat>, live: set<seq<nat>>, lost: set<seq<nat>>)
    requires Apart(fat, live + lost) && live !! lost
    ensures Accounted(fat, live) == Accounted(fat, live + lost) <==> lost == {}
  {
    if lost == {} {
      assert live + lost == live;
    } else {
      var a :| a in lost;
      assert a in live + lost && a[0] in a && a[0] in ClustersIn(live + lost);
      forall b | b in live ensures a[0] !in b {
        assert b in live + lost && Disjoint(a, b);
      }
    }
  }

  /** An operation that leaves the chains `own1` in hand and the chains `lost` to nobody: the clusters that are
      free or in hand, with the other chains, are the same as before exactly if nothing is lost. */
  lemma OperationLosesExactlyIf(fat0: seq<nat>, own0: set<seq<nat>>, steps: seq<Step>, fat1: seq<nat>,
                                own1: set<seq<nat>>, lost: set<seq<nat>>, others: set<seq<nat>>)
    requires WellFormed(fat0, own0 + others) && own0 !! others && Leads(fat0, own0, steps, fat1, own1 + lost)
    requires own1 !! lost
    ensures Accounted(fat1, own1 + others) == Accounted(fat0, own0 + others) <==> lost == {}
  {
    hide WellFormed, Accounted, Leads, Apart;
    OperationKeeps(fat0, own0, steps, fat1, own1 + lost, others);
    assert own1 + lost + others == own1 + others + lost;
    NoneMissingExactlyIf(fat1, own1 + others, lost);
  }

  /** Free clusters and clusters in use are counted separately. */
  lemma FreeIsNotLive(fat: seq<nat>, live: set<seq<nat>>)
    requires WellFormed(fat, live)
    ensures FreeClusters(fat) !! ClustersIn(live)
    ensures |Accounted(fat, live)| == |FreeClusters(fat)| + |ClustersIn(live)|
  {
    forall c | c in FreeClusters(fat) ensures c !in ClustersIn(live) {
      NotAmong(fat, live, c);
    }
  }

  ghost function ClustersOf(a: seq<nat>): set<nat>
  {
    set c | c in a
  }

  lemma {:induction false} DistinctCounts(a: seq<nat>)
    requires Distinct(a)
    ensures |ClustersOf(a)| == |a|
  {
    if a == [] {
      assert ClustersOf(a) == {};
    } else {
      var front, last := a[..|a| - 1], a[|a| - 1];
      DistinctCounts(front);
      assert a == front + [last] && last !in front;
      assert ClustersOf(a) == ClustersOf(front) + {last};
    }
  }

  lemma OneChainApart(live: set<seq<nat>>, a: seq<nat>)
    requires a in live
    ensures ClustersIn(live) == ClustersIn(live - {a}) + ClustersOf(a)
  {
    forall c ensures c in ClustersIn(live) <==> c in ClustersIn(live - {a}) || c in ClustersOf(a) {
      if c in ClustersIn(live) {
        var b :| b in live && c in b;
        assert b != a ==> b in live - {a};
      }
    }
  }

  lemma ApartFromOthers(fat: seq<nat>, live: set<seq<nat>>, a: seq<nat>)
    requires WellFormed(fat, live) && a in live
    ensures ClustersOf(a) !! ClustersIn(live - {a})
  {
    forall b | b in live - {a} ensures forall c :: c in b ==> c !in a {
      assert Disjoint(b, a);
    }
  }

  /** And as many clusters are in use as the live chains are long. */
  lemma ChainCounts(fat: seq<nat>, live: set<seq<nat>>, a: seq<nat>)
    requires WellFormed(fat, live) && a in live
    ensures |ClustersIn(live)| == |ClustersIn(live - {a})| + |a|
  {
    ApartFromOthers(fat, live, a);
    OneChainApart(live, a);
    DistinctCounts(a);
  }

  /** The lengths of the chains added up. */
  ghost function TotalLength(live: set<seq<nat>>): nat
    decreases live
  {
    if live == {} then 0
    else
      var a :| a in live;
      |a| + TotalLength(live - {a})
  }

  lemma {:induction false} LiveCount(fat: seq<nat>, live: set<seq<nat>>)
    requires WellFormed(fat, live)
    ensures |ClustersIn(live)| == TotalLength(live)
    decreases live
  {
    if live == {} {
      assert ClustersIn(live) == {};
    } else {
      var a :| a in live && TotalLength(live) == |a| + TotalLength(live - {a});
      ChainCounts(fat, live, a);
      LiveCount(fat, live - {a});
    }
  }

  /** So a well-formed volume has as many free clusters and clusters in chains, by the chains' lengths, as
      before. */
  lemma NumberConserved(fat0: seq<nat>, own0: set<seq<nat>>, steps: seq<Step>, fat1: seq<nat>, own1: set<seq<nat>>,
                        others: set<seq<nat>>)
    requires WellFormed(fat0, own0 + others) && own0 !! others && Leads(fat0, own0, steps, fat1, own1)
    requires !IsOpen(steps)
    ensures |FreeClusters(fat1)| + TotalLength(own1 + others) == |FreeClusters(fat0)| + TotalLength(own0 + others)
  {
    OperationKeeps(fat0, own0, steps, fat1, own1, others);
    FreeIsNotLive(fat0, own0 + others);
    FreeIsNotLive(fat1, own1 + others);
    LiveCount(fat0, own0 + others);
    LiveCount(fat1, own1 + others);
  }

  // ---------------------------------------------------------------- every run

  /** One operation of a run: the chains it works on, what it writes, the chains it leaves to files and
      directories, and those it leaves to nothing. */
  datatype Operation = Operation(own: set<seq<nat>>, steps: seq<Step>, after: set<seq<nat>>, lost: set<seq<nat>>)

  /** A FAT, the chains of all files and directories, and the chains in use that nothing names. */
  datatype Disk = Disk(fat: seq<nat>, live: set<seq<nat>>, lost: set<seq<nat>>)

  ghost predicate Follows(d: Disk, op: Operation, e: Disk)
  {
    && op.own <= d.live && Leads(d.fat, op.own, op.steps, e.fat, op.after + op.lost) && op.after !! op.lost
    && e.live == d.live - op.own + op.after && e.lost == d.lost + op.lost
  }

  /** `trace` is a run: each state follows from the one before by its operation. */
  ghost predicate IsHistory(trace: seq<Disk>, ops: seq<Operation>)
  {
    && |trace| == |ops| + 1 && WellFormed(trace[0].fat, trace[0].live) && trace[0].lost == {}
    && forall i :: 0 <= i < |ops| ==> Follows(trace[i], ops[i], trace[i + 1])
  }

  lemma FollowsKeeps(d: Disk, op: Operation, e: Disk)
    requires Follows(d, op, e) && WellFormed(d.fat, d.live + d.lost) && d.live !! d.lost
    ensures Accounted(e.fat, e.live + e.lost) == Accounted(d.fat, d.live + d.lost)
    ensures (WellFormed(e.fat, e.live + e.lost) <==> !IsOpen(op.steps)) && e.live !! e.lost
    ensures Apart(e.fat, e.live + e.lost)
  {
    hide WellFormed, Accounted, Leads, IsOpen, Apart;
    var others := d.live - op.own + d.lost;
    assert d.live + d.lost == op.own + others;
    OperationKeeps(d.fat, op.own, op.steps, e.fat, op.after + op.lost, others);
    assert op.after + op.lost + others == e.live + e.lost;
  }

  /** In every state that operations lead to all chains are well formed and disjoint, exactly as long as none of
      the operations has left a link open, and every cluster is free, in the chain of a file or directory, or
      in a chain that an operation has left to nothing; so none is missing exactly if no operation has. */
  lemma {:induction false} ReachableStatesAreWellFormed(trace: seq<Disk>, ops: seq<Operation>, n: nat)
    requires IsHistory(trace, ops) && n < |trace| && forall i :: 0 <= i < n - 1 ==> !IsOpen(ops[i].steps)
    ensures Accounted(trace[n].fat, trace[n].live + trace[n].lost) == Accounted(trace[0].fat, trace[0].live)
    ensures WellFormed(trace[n].fat, trace[n].live + trace[n].lost) <==> n == 0 || !IsOpen(ops[n - 1].steps)
    ensures trace[n].live !! trace[n].lost && Apart(trace[n].fat, trace[n].live + trace[n].lost)
    ensures Accounted(trace[n].fat, trace[n].live) == Accounted(trace[0].fat, trace[0].live)
            <==> forall i :: 0 <= i < n ==> ops[i].lost == {}
  {
    hide WellFormed, Accounted, Leads, IsOpen, Apart;
    if n == 0 {
      assert trace[0].live + {} == trace[0].live;
      SoundIsApart(Volume(trace[0].fat, trace[0].live, None));
    } else {
      ReachableStatesAreWellFormed(trace, ops, n - 1);
      assert Follows(trace[n - 1], ops[n - 1], trace[n]);
      FollowsKeeps(trace[n - 1], ops[n - 1], trace[n]);
    }
    LostSoFar(trace, ops, n);
    NoneMissingExactlyIf(trace[n].fat, trace[n].live, trace[n].lost);
  }

  /** Nothing that is lost comes back. */
  lemma {:induction false} LostSoFar(trace: seq<Disk>, ops: seq<Operation>, n: nat)
    requires IsHistory(trace, ops) && n < |trace|
    ensures trace[n].lost == {} <==> forall i :: 0 <= i < n ==> ops[i].lost == {}
  {
    hide WellFormed, Leads;
    if 0 < n {
      LostSoFar(trace, ops, n - 1);
      assert Follows(trace[n - 1], ops[n - 1], trace[n]);
    }
  }

  /** What an open link leads to: in a FAT with the one chain [2], a link to 3 without the mark leaves 3 free,
      and the next file that takes 3 shares it. */
  lemma OpenLinkSharesCluster()
    ensures var fat := [0, 0, EndOfFile, 0, 0];
            && WellFormed(fat, {[2]}) && Leads(fat, {[2]}, [Link([2], 3)], fat[2 := 3], {[2]})
            && !WellFormed(fat[2 := 3], {[2]}) && IsFree(fat[2 := 3], 3)
            && IsChain(Allocated(fat[2 := 3], 3), [2, 3]) && IsChain(Allocated(fat[2 := 3], 3), [3])
  {
    var fat := [0, 0, EndOfFile, 0, 0];
    assert IsChain(fat, [2]);
    assert fat[2 := 3][2] == 3;
    var v, s := Volume(fat, {[2]}, None), Link([2], 3);
    OneStep(v, s);
    var half := fat[2 := 3];
    assert half[[2][|[2]| - 1]] == 3;
    assert !Linked(half, [2]);
    assert [2] in {[2]};
    var shared := Allocated(half, 3);
    assert Linked(shared, [2, 3]) && Linked(shared, [3]);
  }

  /** What a cut loses: in a FAT with the one chain [2, 3], a link from 2 to 4 and its mark make the chain [2, 4],
      and 3 is neither free nor in it. */
  lemma CutLosesCluster()
    ensures var fat, after := [0, 0, 3, EndOfFile, 0, 0], [0, 0, 4, EndOfFile, EndOfFile, 0];
            && WellFormed(fat, {[2, 3]}) && WellFormed(after, {[2, 4]})
            && Leads(fat, {[2, 3]}, [Cut([2, 3], 0, 4), Mark], after, {[2, 4]} + {[3]})
            && 3 in Accounted(fat, {[2, 3]}) && 3 !in Accounted(after, {[2, 4]})
  {
    var fat, after := [0, 0, 3, EndOfFile, 0, 0], [0, 0, 4, EndOfFile, EndOfFile, 0];
    assert Linked(fat, [2, 3]) && Linked(after, [2, 4]);
    CutSteps(fat, [2, 3], 0, 4);
    assert Extended(fat, 2, 4) == after && [2, 3][..1] == [2] && [2, 3][1..] == [3] && [2] + [4] == [2, 4];
    assert [2, 3] in {[2, 3]} && 3 in [2, 3] && 3 in ClustersIn({[2, 3]});
    assert 3 !in [2, 4];
  }

  /** How a device that never fails gets there: the file [2] grows by 3 and then finds nothing free, so that its
      size stays; the file [4] is deleted; and the next append to the first file links from 2, where its size
      ends. */
  lemma FullDeviceLosesCluster() returns (trace: seq<Disk>, ops: seq<Operation>)
    ensures IsHistory(trace, ops) && |ops| == 3 && forall i :: 0 <= i < 3 ==> !IsOpen(ops[i].steps)
    ensures trace[0] == Disk([0, 0, EndOfFile, 0, EndOfFile], {[2], [4]}, {})
    ensures trace[3].live == {[2, 4]} && WellFormed(trace[3].fat, trace[3].live + trace[3].lost)
    ensures Accounted(trace[3].fat, trace[3].live) != Accounted(trace[0].fat, trace[0].live)
  {
    hide Accounted, Leads, IsOpen;
    var fat0, fat1 := [0, 0, EndOfFile, 0, EndOfFile], [0, 0, 3, EndOfFile, EndOfFile];
    var fat2, fat3 := [0, 0, 3, EndOfFile, 0], [0, 0, 4, EndOfFile, EndOfFile];
    trace := [Disk(fat0, {[2], [4]}, {}), Disk(fat1, {[2, 3], [4]}, {}), Disk(fat2, {[2, 3]}, {}),
              Disk(fat3, {[2, 4]}, {[3]})];
    ops := [Operation({[2]}, [Link([2], 3), Mark], {[2, 3]}, {}), Operation({[4]}, [Free([4])], {}, {}),
            Operation({[2, 3]}, [Cut([2, 3], 0, 4), Mark], {[2, 4]}, {[3]})];
    SampleChains(fat0, fat1, fat2);
    GrowsSample(fat0, fat1, trace[0], ops[0], trace[1]);
    FreesSample(fat1, fat2, trace[1], ops[1], trace[2]);
    CutsSample(fat2, fat3, trace[2], ops[2], trace[3]);
    assert ops[2].lost == {[3]};
    ReachableStatesAreWellFormed(trace, ops, 3);
  }

  lemma SampleChains(fat0: seq<nat>, fat1: seq<nat>, fat2: seq<nat>)
    requires fat0 == [0, 0, EndOfFile, 0, EndOfFile] && fat1 == [0, 0, 3, EndOfFile, EndOfFile]
    requires fat2 == [0, 0, 3, EndOfFile, 0]
    ensures WellFormed(fat0, {[2], [4]}) && IsChain(fat1, [4]) && IsChain(fat2, [2, 3])
  {
    assert IsChain(fat0, [2]) && IsChain(fat0, [4]);
    assert Linked(fat2, [2, 3]);
  }

  lemma GrowsSample(fat0: seq<nat>, fat1: seq<nat>, d: Disk, op: Operation, e: Disk)
    requires fat0 == [0, 0, EndOfFile, 0, EndOfFile] && fat1 == [0, 0, 3, EndOfFile, EndOfFile]
    requires d == Disk(fat0, {[2], [4]}, {}) && e == Disk(fat1, {[2, 3], [4]}, {})
    requires op == Operation({[2]}, [Link([2], 3), Mark], {[2, 3]}, {})
    ensures Follows(d, op, e) && !IsOpen(op.steps)
  {
    LinkSteps(fat0, [2], 3);
    assert Extended(fat0, 2, 3) == fat1 && [2] + [3] == [2, 3] && op.after + op.lost == {[2, 3]};
    assert [2][0] == 2 && [4][0] == 4;
    assert d.live - op.own + op.after == e.live;
  }

  lemma FreesSample(fat1: seq<nat>, fat2: seq<nat>, d: Disk, op: Operation, e: Disk)
    requires fat1 == [0, 0, 3, EndOfFile, EndOfFile] && fat2 == [0, 0, 3, EndOfFile, 0] && IsChain(fat1, [4])
    requires d == Disk(fat1, {[2, 3], [4]}, {}) && e == Disk(fat2, {[2, 3]}, {})
    requires op == Operation({[4]}, [Free([4])], {}, {})
    ensures Follows(d, op, e) && !IsOpen(op.steps)
  {
    FirstReleased(fat1, [4]);
    assert fat1[4 := EntryFree] == fat2 && op.after + op.lost == {} && Rest([4]) == {};
    assert |[2, 3]| != |[4]|;
    assert d.live - op.own + op.after == e.live;
  }

  lemma CutsSample(fat2: seq<nat>, fat3: seq<nat>, d: Disk, op: Operation, e: Disk)
    requires fat2 == [0, 0, 3, EndOfFile, 0] && fat3 == [0, 0, 4, EndOfFile, EndOfFile] && IsChain(fat2, [2, 3])
    requires d == Disk(fat2, {[2, 3]}, {}) && e == Disk(fat3, {[2, 4]}, {[3]})
    requires op == Operation({[2, 3]}, [Cut([2, 3], 0, 4), Mark], {[2, 4]}, {[3]})
    ensures Follows(d, op, e) && !IsOpen(op.steps)
  {
    CutSteps(fat2, [2, 3], 0, 4);
    assert Extended(fat2, 2, 4) == fat3 && [2, 3][..1] == [2] && [2, 3][1..] == [3] && [2] + [4] == [2, 4];
    assert d.live - op.own + op.after == e.live;
  }

  // ---------------------------------------------------------------- releasing

  /** The steps that set the first `k` clusters of a chain free. */
  ghost function FreeSteps(chain: seq<nat>, k: nat): seq<Step>
    requires k <= |chain|
    decreases k
  {
    if k == 0 then [] else [Free(chain)] + FreeSteps(chain[1..], k - 1)
  }

  /** What is left of the chain then. */
  ghost function Remaining(chain: seq<nat>, k: nat): set<seq<nat>>
    requires k <= |chain|
  {
    if k == |chain| then {} else {chain[k..]}
  }

  lemma {:induction false} ReleasedBySteps(fat: seq<nat>, chain: seq<nat>, k: nat)
    requires IsChain(fat, chain) && k <= |chain|
    ensures Leads(fat, {chain}, FreeSteps(chain, k), Released(fat, chain[..k]), Remaining(chain, k))
    ensures !IsOpen(FreeSteps(chain, k))
    decreases k
  {
    hide Released, CanRun, Outcome, Enabled, Apply, IsOpen, OpenFrom, Leads;
    if k == 0 {
      NothingReleased(fat, chain);
      NoSteps(fat, {chain});
    } else {
      FirstReleased(fat, chain);
      var freed := fat[chain[0] := EntryFree];
      ReleasedTwice(fat, chain, k);
      if 1 < |chain| {
        ReleasedBySteps(freed, chain[1..], k - 1);
        assert chain[1..][k - 1..] == chain[k..];
      } else {
        NothingReleased(freed, chain[1..]);
        NoSteps(freed, {});
      }
      LeadsOn(fat, {chain}, [Free(chain)], freed, Rest(chain), FreeSteps(chain[1..], k - 1),
              Released(fat, chain[..k]), Remaining(chain, k));
    }
  }

  lemma NothingReleased(fat: seq<nat>, chain: seq<nat>)
    ensures Released(fat, chain[..0]) == fat && chain[0..] == chain
  {
  }

  lemma FirstReleased(fat: seq<nat>, chain: seq<nat>)
    requires IsChain(fat, chain)
    ensures chain != [] && chain[0] < |fat|
    ensures Leads(fat, {chain}, [Free(chain)], fat[chain[0] := EntryFree], Rest(chain)) && !IsOpen([Free(chain)])
    ensures 1 < |chain| ==> IsChain(fat[chain[0] := EntryFree], chain[1..]) && Rest(chain) == {chain[1..]}
  {
    LinkAt(fat, chain, 0);
    FirstFreed(fat, chain);
    var v, s := Volume(fat, {chain}, None), Free(chain);
    assert 1 < |chain| ==> chain[1..] in Rest(chain);
    assert {chain} - {chain} + Rest(chain) == Rest(chain);
    OneStep(v, s);
  }

  lemma ReleasedTwice(fat: seq<nat>, chain: seq<nat>, k: nat)
    requires 0 < k <= |chain| && chain[0] < |fat|
    ensures Released(fat[chain[0] := EntryFree], chain[1..][..k - 1]) == Released(fat, chain[..k])
  {
    forall c: nat ensures c in chain[..k] <==> c == chain[0] || c in chain[1..][..k - 1] {
      if c in chain[..k] {
        var i :| 0 <= i < k && chain[i] == c;
        assert i != 0 ==> chain[1..][..k - 1][i - 1] == c;
      }
      if c in chain[1..][..k - 1] {
        var i :| 0 <= i < k - 1 && chain[1..][..k - 1][i] == c;
        assert chain[..k][i + 1] == c;
      }
      assert chain[..k][0] == chain[0];
    }
  }
}
