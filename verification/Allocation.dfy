/** Cluster allocation on a mounted volume: the FAT as a heap of disjoint chains with a free count, over every run. */
module Allocation {
  import opened FatEntries
  import opened Chains
  import opened Volumes

  /** The table, the cached free count and the chains in it. */
  datatype Space = Space(fat: seq<nat>, free: nat, chains: set<seq<nat>>)

  /** The chains partition the clusters in use, the count is exact or unknown, no entry is 1, and the two reserved
      entries are in use. */
  ghost predicate Sound(a: Space) {
    && |a.fat| >= 2 && Heap(a.fat, a.chains) && CountExact(a.fat, a.free) && NoOnes(a.fat)
    && a.fat[0] != 0 && a.fat[1] != 0
  }

  predicate Unknown(a: Space) {
    a.free > |a.fat| - 2
  }

  /** The cluster a chain is stretched from, 0 for a new one. */
  function Tail(s: seq<nat>): nat {
    if s == [] then 0 else s[|s| - 1]
  }

  /** A free cluster r starts a chain, or is added to the end of chain s. */
  ghost predicate Took(a: Space, b: Space, s: seq<nat>, r: nat, eoc: nat) {
    && r in FreeSet(a.fat) && eoc >= |a.fat| && (s == [] || s in a.chains) && Tail(s) < |a.fat|
    && b == Space(Linked(a.fat, Tail(s), r, eoc), if Unknown(a) || a.free == 0 then a.free else a.free - 1,
      a.chains - {s} + {s + [r]})
  }

  /** Chain s is cut down to its first k clusters, or removed if k is 0. */
  ghost predicate Dropped(a: Space, b: Space, s: seq<nat>, k: nat, eoc: nat) {
    && s in a.chains && Chain(a.fat, s) && k < |s| && eoc >= |a.fat|
    && b == Space(Trimmed(a.fat, s, k, eoc), if Unknown(a) then a.free else a.free + (|s| - k),
                  a.chains - {s} + (if k == 0 then {} else {s[..k]}))
  }

  /** The free count is looked up, by a scan if it is unknown. */
  ghost predicate Counted(a: Space, b: Space) {
    b == Space(a.fat, |FreeSet(a.fat)|, a.chains)
  }

  lemma TookIsSound(a: Space, b: Space, s: seq<nat>, r: nat, eoc: nat)
    requires Sound(a) && Took(a, b, s, r, eoc)
    ensures Sound(b) && a.free > 0
  {
    hide Heap, CountExact, NoOnes, FreeSet;
    if s == [] {
      NewInHeap(a, r, eoc);
      LinkedTakes(a.fat, 0, r, eoc, a.free);
    } else {
      TailInUse(a, s);
      StretchHeap(a.fat, a.chains, s, r, eoc);
      LinkedTakes(a.fat, Tail(s), r, eoc, a.free);
    }
    FreeInRange(a.fat, r);
  }

  lemma FreeInRange(f: seq<nat>, r: nat)
    requires r in FreeSet(f)
    ensures 2 <= r < |f|
  {
  }

  lemma NewInHeap(a: Space, r: nat, eoc: nat)
    requires Heap(a.fat, a.chains) && r in FreeSet(a.fat) && eoc >= |a.fat|
    ensures Heap(a.fat[r := eoc], a.chains - {[]} + {[] + [r]})
  {
    NewChainHeap(a.fat, a.chains, r, eoc);
    assert [] !in a.chains;
    assert [] + [r] == [r];
    assert a.chains - {[]} == a.chains;
  }

  lemma TailInUse(a: Space, s: seq<nat>)
    requires Heap(a.fat, a.chains) && s in a.chains
    ensures s != [] && InRange(a.fat, Tail(s)) && a.fat[Tail(s)] >= |a.fat| && Chain(a.fat, s)
  {
  }

  lemma DroppedIsSound(a: Space, b: Space, s: seq<nat>, k: nat, eoc: nat)
    requires Sound(a) && Dropped(a, b, s, k, eoc)
    ensures Sound(b)
  {
    hide Heap, NoOnes;
    TrimHeap(a.fat, a.chains, s, k, eoc);
    TrimFrees(a.fat, s, k, eoc);
    SuffixCount(a.fat, s, k);
    NotReserved(a.fat, s);
    FreeBound(b.fat);
    assert |FreeSet(a.fat) + Elems(s[k..])| == |FreeSet(a.fat)| + |Elems(s[k..])|;
  }

  /** The clusters cut off are as many as they seem, and none was free. */
  lemma SuffixCount(f: seq<nat>, s: seq<nat>, k: nat)
    requires Chain(f, s) && k < |s|
    ensures |Elems(s[k..])| == |s| - k && FreeSet(f) !! Elems(s[k..])
  {
    var t := s[k..];
    assert forall i :: 0 <= i < |t| ==> t[i] == s[k + i];
    DistinctCount(t);
    forall c | c in t
      ensures c !in FreeSet(f)
    {
      var i :| 0 <= i < |t| && t[i] == c;
      ChainIsUsed(f, s, k + i);
    }
  }

  lemma NotReserved(f: seq<nat>, s: seq<nat>)
    requires Chain(f, s)
    ensures 0 !in s && 1 !in s
  {
    forall c | c in s
      ensures c >= 2
    {
      var i :| 0 <= i < |s| && s[i] == c;
      assert InRange(f, s[i]);
    }
  }

  lemma CountedIsSound(a: Space, b: Space)
    requires Sound(a) && Counted(a, b)
    ensures Sound(b) && !Unknown(b)
  {
    hide Heap;
    FreeBound(a.fat);
  }

  // ---- The engine's operations -----------------------------------------------------------------

  ghost function SpaceOf(vol: Volume, chains: set<seq<nat>>): Space
    requires vol.Valid()
    reads vol
  {
    Space(vol.Fat(), vol.freeClst, chains)
  }

  /** Take a cluster for chain s, or for a new chain if s is empty. It fails if and only if no cluster is free. */
  method Take(vol: Volume, clst: nat, ghost s: seq<nat>, ghost chains: set<seq<nat>>)
    returns (r: nat, ghost after: set<seq<nat>>)
    requires vol.Valid() && Sound(SpaceOf(vol, chains)) && (s == [] || s in chains) && clst == Tail(s)
    modifies vol
    ensures vol.Valid() && (r != DISK_ERROR ==> Sound(SpaceOf(vol, after)))
    ensures r != DISK_ERROR ==> (r == 0 <==> FreeSet(old(vol.Fat())) == {})
    ensures r == 0 ==> SpaceOf(vol, after) == old(SpaceOf(vol, chains))
    ensures r != 0 && r != DISK_ERROR ==> Took(old(SpaceOf(vol, chains)), SpaceOf(vol, after), s, r, vol.EndMark())
    ensures vol.reliable ==> r != DISK_ERROR
  {
    hide Heap, NoOnes, CountExact, FreeSet, FatOf, Tracks, Mirrors, Linked, Preferred, SameOutsideFat;
    after := chains;
    ghost var a := SpaceOf(vol, chains);
    if s != [] {
      TailInUse(a, s);
    }
    r := vol.CreateChain(clst);
    if r != 0 && r != DISK_ERROR {
      after := chains - {s} + {s + [r]};
      TookIsSound(a, SpaceOf(vol, after), s, r, vol.EndMark());
    }
  }

  /** Cut chain s down to its first k clusters. */
  method Drop(vol: Volume, clst: nat, pclst: nat, ghost s: seq<nat>, ghost k: nat, ghost chains: set<seq<nat>>)
    returns (res: FResult, ghost after: set<seq<nat>>)
    requires vol.Valid() && Sound(SpaceOf(vol, chains)) && s in chains && k < |s|
    requires clst == s[k] && pclst == if k == 0 then 0 else s[k - 1]
    modifies vol
    ensures vol.Valid() && (res == FrOk || res == FrDiskErr)
    ensures res == FrOk ==>
            Sound(SpaceOf(vol, after)) && Dropped(old(SpaceOf(vol, chains)), SpaceOf(vol, after), s, k, vol.EndMark())
    ensures vol.reliable ==> res == FrOk
  {
    hide Heap, NoOnes, FatOf, Tracks, Mirrors, Trimmed, SameOutsideFat, Released;
    ghost var a := SpaceOf(vol, chains);
    TailInUse(a, s);
    ClustersOf(a.fat, s, k);
    ReleaseIsTrim(a.fat, s, k, vol.EndMark());
    EndedCount(a, s, k, vol.EndMark());
    res := vol.RemoveChain(clst, pclst);
    after := chains - {s} + (if k == 0 then {} else {s[..k]});
    if res == FrOk {
      TrimmedCount(a, s, k, vol.EndMark(), vol.freeClst);
      DroppedIsSound(a, SpaceOf(vol, after), s, k, vol.EndMark());
    }
  }

  lemma ClustersOf(f: seq<nat>, s: seq<nat>, k: nat)
    requires Chain(f, s) && k < |s|
    ensures InRange(f, s[k]) && (k > 0 ==> InRange(f, s[k - 1]))
  {
  }

  /** Ending the part that stays leaves the count as exact as it was. */
  lemma EndedCount(a: Space, s: seq<nat>, k: nat, eoc: nat)
    requires Chain(a.fat, s) && 0 <= k < |s| && eoc >= |a.fat| && CountExact(a.fat, a.free)
    ensures k > 0 ==> s[k - 1] < |a.fat| && CountExact(a.fat[s[k - 1] := eoc], a.free)
  {
    if k > 0 {
      ChainIsUsed(a.fat, s, k - 1);
      FreeAfterRelink(a.fat, s[k - 1], eoc);
    }
  }

  lemma TrimmedCount(a: Space, s: seq<nat>, k: nat, eoc: nat, free: nat)
    requires Chain(a.fat, s) && k < |s| && eoc >= |a.fat| && CountExact(a.fat, a.free)
    requires CountExact(Trimmed(a.fat, s, k, eoc), free)
    requires if Unknown(a) then free == a.free else free <= |a.fat| - 2
    ensures free == if Unknown(a) then a.free else a.free + (|s| - k)
  {
    TrimFrees(a.fat, s, k, eoc);
    SuffixCount(a.fat, s, k);
    assert |FreeSet(a.fat) + Elems(s[k..])| == |FreeSet(a.fat)| + |Elems(s[k..])|;
  }

  /** Look the free count up. */
  method Count(vol: Volume, ghost chains: set<seq<nat>>) returns (res: FResult, n: nat)
    requires vol.Valid() && Sound(SpaceOf(vol, chains))
    modifies vol
    ensures vol.Valid() && Sound(SpaceOf(vol, chains))
    ensures res == FrOk ==> n == vol.freeClst && Counted(old(SpaceOf(vol, chains)), SpaceOf(vol, chains))
    ensures res != FrOk ==> SpaceOf(vol, chains) == old(SpaceOf(vol, chains))
    ensures vol.reliable ==> res == FrOk
  {
    hide Heap, NoOnes, FreeSet, FatOf, Tracks, Mirrors;
    ghost var a := SpaceOf(vol, chains);
    NoneReserved(a.fat);
    res, n := vol.GetFree();
    if res == FrOk {
      CountedIsSound(a, SpaceOf(vol, chains));
    }
  }

  lemma NoneReserved(f: seq<nat>)
    requires |f| >= 2 && f[0] != 0 && f[1] != 0
    ensures ZeroCount(f, 2) == 0
  {
    assert ZeroCount(f, 1) == 0;
  }

  // ---- Runs ------------------------------------------------------------------------------------

  ghost predicate TookAny(a: Space, b: Space, eoc: nat) {
    exists s, r :: Took(a, b, s, r, eoc)
  }

  ghost predicate DroppedAny(a: Space, b: Space, eoc: nat) {
    exists s, k: nat :: Dropped(a, b, s, k, eoc)
  }

  /** A run of allocations, releases and counts. */
  ghost predicate Run(spaces: seq<Space>, eoc: nat) {
    |spaces| > 0 && forall i :: 0 <= i < |spaces| - 1 ==> Step(spaces[i], spaces[i + 1], eoc)
  }

  ghost predicate Step(a: Space, b: Space, eoc: nat) {
    TookAny(a, b, eoc) || DroppedAny(a, b, eoc) || Counted(a, b) || a == b
  }

  lemma StepIsSound(a: Space, b: Space, eoc: nat)
    requires Sound(a) && Step(a, b, eoc)
    ensures Sound(b) && |b.fat| == |a.fat|
    ensures Unknown(a) && !Counted(a, b) ==> b.free == a.free
    ensures !Unknown(a) ==> !Unknown(b)
  {
    hide Sound, Linked, Trimmed;
    if TookAny(a, b, eoc) {
      var s, r :| Took(a, b, s, r, eoc);
      TookIsSound(a, b, s, r, eoc);
    } else if DroppedAny(a, b, eoc) {
      var s, k: nat :| Dropped(a, b, s, k, eoc);
      DroppedIsSound(a, b, s, k, eoc);
      StaysKnown(a, b, s, k, eoc);
    } else if Counted(a, b) {
      CountedIsSound(a, b);
    }
  }

  lemma StaysKnown(a: Space, b: Space, s: seq<nat>, k: nat, eoc: nat)
    requires Sound(a) && Dropped(a, b, s, k, eoc)
    ensures !Unknown(a) ==> !Unknown(b)
  {
    TrimFrees(a.fat, s, k, eoc);
    SuffixCount(a.fat, s, k);
    FreeBound(b.fat);
    assert |FreeSet(a.fat) + Elems(s[k..])| == |FreeSet(a.fat)| + |Elems(s[k..])|;
  }

  /** Over every run the table stays a set of disjoint chains and a known free count is the number of free clusters;
      an unknown one stays unknown until it is looked up, and a known one stays known. */
  lemma {:induction false} RunIsSound(spaces: seq<Space>, eoc: nat, i: nat)
    requires Run(spaces, eoc) && Sound(spaces[0]) && i < |spaces|
    ensures Sound(spaces[i]) && |spaces[i].fat| == |spaces[0].fat|
    ensures !Unknown(spaces[i]) ==> spaces[i].free == |FreeSet(spaces[i].fat)|
    ensures !Unknown(spaces[0]) ==> !Unknown(spaces[i])
    ensures Unknown(spaces[0]) && (forall j :: 0 <= j < i ==> !Counted(spaces[j], spaces[j + 1])) ==>
            spaces[i].free == spaces[0].free
    decreases i
  {
    hide Step, Counted, Heap, NoOnes;
    if i > 0 {
      RunIsSound(spaces, eoc, i - 1);
      StepIsSound(spaces[i - 1], spaces[i], eoc);
    }
  }
}
