/** The FAT as a heap of disjoint cluster chains. A table f maps cluster c to f[c]:
    0 is free, a value in [2, |f|) is the next cluster, |f| and above ends a chain. */
module Chains {

  ghost predicate InRange(f: seq<nat>, c: nat) {
    2 <= c < |f|
  }

  ghost predicate Distinct(s: seq<nat>) {
    forall i, j :: 0 <= i < j < |s| ==> s[i] != s[j]
  }

  /** s is a whole chain: linked in order, no repeats, ended by an end mark. */
  ghost predicate Chain(f: seq<nat>, s: seq<nat>) {
    && s != []
    && (forall i :: 0 <= i < |s| ==> InRange(f, s[i]))
    && Distinct(s)
    && (forall i :: 0 <= i < |s| - 1 ==> f[s[i]] == s[i + 1])
    && f[s[|s| - 1]] >= |f|
  }

  ghost function FreeSet(f: seq<nat>): set<nat> {
    set c | 2 <= c < |f| && f[c] == 0
  }

  ghost function Used(f: seq<nat>): set<nat> {
    set c | 2 <= c < |f| && f[c] != 0
  }

  /** No entry holds the reserved value 1, which the engine reads as an internal error. */
  ghost predicate NoOnes(f: seq<nat>) {
    forall c :: 2 <= c < |f| ==> f[c] != 1
  }

  /** The cached count: exact, or out of range and so unknown. */
  ghost predicate CountExact(f: seq<nat>, free: nat) {
    |f| >= 2 && (free <= |f| - 2 ==> free == |FreeSet(f)|)
  }

  ghost predicate Apart(s: seq<nat>, t: seq<nat>) {
    forall c :: c in s ==> c !in t
  }

  /** The table is exactly the chains cs: pairwise disjoint, and every used entry is in one. */
  ghost predicate Heap(f: seq<nat>, cs: set<seq<nat>>) {
    && (forall s :: s in cs ==> Chain(f, s))
    && (forall s, t :: s in cs && t in cs && s != t ==> Apart(s, t))
    && (forall c :: c in Used(f) ==> exists s :: s in cs && c in s)
  }

  ghost function Elems(s: seq<nat>): set<nat> {
    set c | c in s
  }

  // ---- Counting -------------------------------------------------------------------------------

  lemma {:induction false} DistinctCount(t: seq<nat>)
    requires Distinct(t)
    ensures |Elems(t)| == |t|
    decreases |t|
  {
    if t != [] {
      var r := t[..|t| - 1];
      DistinctCount(r);
      assert t == r + [t[|t| - 1]];
      assert Elems(t) == Elems(r) + {t[|t| - 1]};
    }
  }

  lemma FreeAfterTake(f: seq<nat>, c: nat, v: nat)
    requires c in FreeSet(f) && v != 0
    ensures FreeSet(f[c := v]) == FreeSet(f) - {c}
    ensures |FreeSet(f[c := v])| == |FreeSet(f)| - 1
  {
  }

  lemma FreeAfterRelease(f: seq<nat>, c: nat)
    requires c in Used(f)
    ensures FreeSet(f[c := 0]) == FreeSet(f) + {c}
    ensures |FreeSet(f[c := 0])| == |FreeSet(f)| + 1
  {
  }

  lemma FreeAfterRelink(f: seq<nat>, c: nat, v: nat)
    requires c in Used(f) && v != 0
    ensures FreeSet(f[c := v]) == FreeSet(f)
  {
  }

  /** The clusters of a table of n entries. */
  ghost function Clusters(n: nat): (cs: set<nat>)
    ensures forall c :: c in cs <==> 2 <= c < n
    ensures n >= 2 ==> |cs| == n - 2
  {
    if n <= 2 then {} else Clusters(n - 1) + {n - 1}
  }

  lemma SubsetCard<T>(a: set<T>, b: set<T>)
    requires a <= b
    ensures |a| <= |b|
  {
    assert b == a + (b - a);
  }

  /** The number of free clusters never exceeds the number of clusters, and is below it while one is used. */
  lemma FreeBound(f: seq<nat>)
    requires |f| >= 2
    ensures |FreeSet(f)| <= |f| - 2
    ensures Used(f) != {} ==> |FreeSet(f)| < |f| - 2
  {
    var all := Clusters(|f|);
    SubsetCard(FreeSet(f), all);
    if Used(f) != {} {
      var c :| c in Used(f);
      SubsetCard(FreeSet(f), all - {c});
    }
  }

  /** Counting up on release keeps the cached count exact or unknown. */
  lemma CountRelease(f: seq<nat>, c: nat, free: nat)
    requires CountExact(f, free) && c in Used(f)
    ensures CountExact(f[c := 0], if free < |f| - 2 then free + 1 else free)
  {
    FreeBound(f);
    FreeAfterRelease(f, c);
  }

  /** Counting down on allocation keeps it exact or unknown, and never wraps. */
  lemma CountTake(f: seq<nat>, c: nat, v: nat, free: nat)
    requires CountExact(f, free) && c in FreeSet(f) && v != 0
    ensures free > 0
    ensures CountExact(f[c := v], if free <= |f| - 2 then free - 1 else free)
  {
    FreeAfterTake(f, c, v);
  }

  /** Taking cluster r for a new chain, or to stretch one ended at clst. */
  lemma LinkedTakes(f: seq<nat>, clst: nat, r: nat, eoc: nat, free: nat)
    requires r in FreeSet(f) && eoc >= |f| && (clst == 0 || (InRange(f, clst) && f[clst] != 0))
    ensures FreeSet(Linked(f, clst, r, eoc)) == FreeSet(f) - {r}
    ensures NoOnes(f) ==> NoOnes(Linked(f, clst, r, eoc))
    ensures CountExact(f, free) ==>
            free > 0 && CountExact(Linked(f, clst, r, eoc), if free <= |f| - 2 then free - 1 else free)
  {
    FreeAfterTake(f, r, eoc);
    var h := f[r := eoc];
    if clst != 0 {
      FreeAfterRelink(h, clst, r);
    }
    if CountExact(f, free) {
      CountTake(f, r, eoc, free);
    }
  }

  /** Zero entries among the first k, reserved ones included. */
  ghost function ZeroCount(f: seq<nat>, k: nat): nat
    requires k <= |f|
  {
    if k == 0 then 0 else ZeroCount(f, k - 1) + if f[k - 1] == 0 then 1 else 0
  }

  lemma FreeOfPrefix(f: seq<nat>, k: nat)
    requires 2 <= k < |f|
    ensures |FreeSet(f[..k + 1])| == |FreeSet(f[..k])| + if f[k] == 0 then 1 else 0
  {
    assert FreeSet(f[..k + 1]) == FreeSet(f[..k]) + if f[k] == 0 then {k} else {};
  }

  /** A scan of the whole table also counts reserved entries that read 0. */
  lemma {:induction false} ZeroCountIsFree(f: seq<nat>, k: nat)
    requires 2 <= k <= |f|
    ensures ZeroCount(f, k) == ZeroCount(f, 2) + |FreeSet(f[..k])|
    decreases k
  {
    if k == 2 {
      assert FreeSet(f[..2]) == {};
    } else {
      ZeroCountIsFree(f, k - 1);
      FreeOfPrefix(f, k - 1);
    }
  }

  // ---- Searching ------------------------------------------------------------------------------

  /** No cluster in [lo, hi) is free. */
  ghost predicate NoneFree(f: seq<nat>, lo: nat, hi: nat)
    requires hi <= |f|
  {
    forall c :: lo <= c < hi ==> f[c] != 0
  }

  /** r is the first free cluster met going up from scl + 1 and round to scl. */
  ghost predicate FirstFree(f: seq<nat>, scl: nat, r: nat) {
    && r in FreeSet(f)
    && (forall c :: scl < c < r ==> c !in FreeSet(f))
    && (r <= scl ==> forall c :: c in FreeSet(f) ==> r <= c <= scl)
  }

  /** No cluster met from scl + 1 up to ncl is free; round says that the search has wrapped. */
  ghost predicate MetNone(f: seq<nat>, scl: nat, ncl: nat, round: bool) {
    && scl < |f| && ncl < |f|
    && if round then NoneFree(f, scl + 1, |f|) && NoneFree(f, 2, ncl + 1) else NoneFree(f, scl + 1, ncl + 1)
  }

  lemma MeetNext(f: seq<nat>, scl: nat, ncl: nat, round: bool)
    requires 0 < ncl < |f| && f[ncl] != 0 && MetNone(f, scl, ncl - 1, round)
    ensures MetNone(f, scl, ncl, round)
  {
  }

  lemma MeetRound(f: seq<nat>, scl: nat)
    requires |f| > 2 && MetNone(f, scl, |f| - 1, false)
    ensures MetNone(f, scl, 1, true)
  {
  }

  /** Once round, none is free. */
  lemma MetAll(f: seq<nat>, scl: nat)
    requires MetNone(f, scl, scl, true) || (scl == 1 < |f| && MetNone(f, scl, |f| - 1, false))
    ensures FreeSet(f) == {}
  {
  }

  lemma MetFirst(f: seq<nat>, scl: nat, ncl: nat, round: bool)
    requires 2 <= ncl < |f| && f[ncl] == 0 && MetNone(f, scl, ncl - 1, round)
    requires if round then ncl <= scl else scl < ncl
    ensures FirstFree(f, scl, ncl)
  {
  }

  /** The cluster an allocation takes: right after the tail being stretched if that is free,
      otherwise the first free one from the last allocation (or from the tail when that hint is invalid). */
  ghost predicate Preferred(f: seq<nat>, clst: nat, last: nat, r: nat) {
    var next := if clst + 1 < |f| then clst + 1 else 2;
    if clst == 0 then
      FirstFree(f, if last == 0 || last >= |f| then 1 else last, r)
    else if next in FreeSet(f) then
      r == next
    else
      FirstFree(f, if 2 <= last < |f| then last else clst, r)
  }

  /** The table once free cluster r ends a chain, linked from clst if that is not 0. */
  ghost function Linked(f: seq<nat>, clst: nat, r: nat, eoc: nat): (h: seq<nat>)
    requires r < |f| && clst < |f|
    ensures |h| == |f|
  {
    if clst == 0 then f[r := eoc] else f[r := eoc][clst := r]
  }

  // ---- Releasing ------------------------------------------------------------------------------

  datatype Walk = Walk(table: seq<nat>, ok: bool)

  /** Follow the links from c and free every entry on the way; stop at a free entry or an end mark,
      fail on the reserved value 1. It ends on any table, cyclic ones included. */
  ghost function Released(f: seq<nat>, c: nat): (w: Walk)
    requires InRange(f, c)
    ensures |w.table| == |f|
    decreases Used(f)
  {
    if f[c] == 0 then Walk(f, true)
    else if f[c] == 1 then Walk(f, false)
    else
      assert c in Used(f) && c !in Used(f[c := 0]) && Used(f[c := 0]) <= Used(f);
      if f[c] < |f| then Released(f[c := 0], f[c]) else Walk(f[c := 0], true)
  }

  /** The table with the clusters of s freed. */
  ghost function Cleared(f: seq<nat>, s: seq<nat>): (g: seq<nat>)
    ensures |g| == |f|
    ensures forall c :: 0 <= c < |f| ==> g[c] == if c in s then 0 else f[c]
  {
    seq(|f|, c requires 0 <= c < |f| => if c in s then 0 else f[c])
  }

  lemma ChainTail(f: seq<nat>, s: seq<nat>)
    requires Chain(f, s) && |s| > 1
    ensures Chain(f[s[0] := 0], s[1..])
  {
    var g, t := f[s[0] := 0], s[1..];
    forall i | 0 <= i < |t|
      ensures InRange(g, t[i]) && g[t[i]] == f[t[i]]
    {
    }
    forall i | 0 <= i < |t| - 1
      ensures g[t[i]] == t[i + 1]
    {
      assert f[s[i + 1]] == s[i + 2];
    }
    assert Distinct(t);
  }

  /** Releasing from the head of a chain frees exactly that chain. */
  lemma {:induction false} ReleaseChain(f: seq<nat>, s: seq<nat>)
    requires Chain(f, s)
    ensures Released(f, s[0]) == Walk(Cleared(f, s), true)
    decreases |s|
  {
    var g := f[s[0] := 0];
    if |s| == 1 {
      assert Cleared(f, s) == g;
    } else {
      assert f[s[0]] == s[1] && InRange(f, s[1]);
      ChainTail(f, s);
      ReleaseChain(g, s[1..]);
      assert s == [s[0]] + s[1..];
      assert Cleared(g, s[1..]) == Cleared(f, s);
    }
  }

  // ---- What the operations do to the heap ------------------------------------------------------

  lemma ChainFrame(f: seq<nat>, g: seq<nat>, s: seq<nat>)
    requires Chain(f, s) && |g| == |f|
    requires forall i :: 0 <= i < |s| ==> g[s[i]] == f[s[i]]
    ensures Chain(g, s)
  {
  }

  lemma ChainSuffix(f: seq<nat>, s: seq<nat>, k: nat)
    requires Chain(f, s) && k < |s|
    ensures Chain(f, s[k..])
  {
    var t := s[k..];
    forall i | 0 <= i < |t| - 1
      ensures f[t[i]] == t[i + 1]
    {
      assert f[s[k + i]] == s[k + i + 1];
    }
    assert t[|t| - 1] == s[|s| - 1];
  }

  /** Ending the chain after its first k clusters leaves that prefix a chain. */
  lemma ChainPrefix(f: seq<nat>, s: seq<nat>, k: nat, eoc: nat, g: seq<nat>)
    requires Chain(f, s) && 0 < k <= |s| && eoc >= |f| == |g|
    requires g[s[k - 1]] == eoc
    requires forall i :: 0 <= i < k - 1 ==> g[s[i]] == f[s[i]]
    ensures Chain(g, s[..k])
  {
  }

  lemma SingletonEnds(f: seq<nat>, s: seq<nat>)
    requires Chain(f, s)
    ensures |s| == 1 <==> f[s[0]] >= |f|
  {
    assert |s| > 1 ==> f[s[0]] == s[1] && InRange(f, s[1]);
  }

  /** A chain is determined by its head. */
  lemma {:induction false} ChainUnique(f: seq<nat>, s: seq<nat>, t: seq<nat>)
    requires Chain(f, s) && Chain(f, t) && s[0] == t[0]
    ensures s == t
    decreases |s|
  {
    SingletonEnds(f, s);
    SingletonEnds(f, t);
    if |s| > 1 {
      assert s[1] == f[s[0]] == t[1];
      ChainSuffix(f, s, 1);
      ChainSuffix(f, t, 1);
      ChainUnique(f, s[1..], t[1..]);
      assert s == [s[0]] + s[1..] && t == [t[0]] + t[1..];
    }
  }

  /** Taking a free cluster as a new chain adds exactly the singleton. */
  lemma NewChainHeap(f: seq<nat>, cs: set<seq<nat>>, c: nat, eoc: nat)
    requires Heap(f, cs) && c in FreeSet(f) && eoc >= |f|
    ensures Heap(f[c := eoc], cs + {[c]})
  {
    var g := f[c := eoc];
    forall s | s in cs
      ensures c !in s && Chain(g, s)
    {
      FreeNotInChain(f, s, c);
      ChainFrame(f, g, s);
    }
    forall d | d in Used(g)
      ensures exists s :: s in cs + {[c]} && d in s
    {
      if d == c {
        assert [c] in cs + {[c]} && d in [c];
      } else {
        assert d in Used(f);
        var s :| s in cs && d in s;
        assert s in cs + {[c]};
      }
    }
  }

  lemma FreeNotInChain(f: seq<nat>, s: seq<nat>, c: nat)
    requires Chain(f, s) && c in FreeSet(f)
    ensures c !in s
  {
    if i :| 0 <= i < |s| && s[i] == c {
      assert i < |s| - 1 ==> f[s[i]] == s[i + 1] && InRange(f, s[i + 1]);
    }
  }

  /** A chain extended by one free cluster. */
  lemma ExtendedChain(f: seq<nat>, s: seq<nat>, c: nat, eoc: nat)
    requires Chain(f, s) && c in FreeSet(f) && eoc >= |f|
    ensures Chain(f[c := eoc][s[|s| - 1] := c], s + [c])
  {
    FreeNotInChain(f, s, c);
    var g, t := f[c := eoc][s[|s| - 1] := c], s + [c];
    forall i | 0 <= i < |t| - 1
      ensures g[t[i]] == t[i + 1]
    {
      if i < |s| - 1 {
        assert f[s[i]] == s[i + 1] && s[i] != s[|s| - 1];
      }
    }
    assert Distinct(t);
  }

  /** Stretching lengthens exactly one chain by one cluster. */
  lemma StretchHeap(f: seq<nat>, cs: set<seq<nat>>, s: seq<nat>, c: nat, eoc: nat)
    requires Heap(f, cs) && s in cs && c in FreeSet(f) && eoc >= |f|
    ensures Heap(f[c := eoc][s[|s| - 1] := c], cs - {s} + {s + [c]})
  {
    var last := s[|s| - 1];
    var g := f[c := eoc][last := c];
    var ds := cs - {s} + {s + [c]};
    ExtendedChain(f, s, c, eoc);
    forall t | t in cs && t != s
      ensures Chain(g, t) && c !in t && Apart(t, s + [c])
    {
      FreeNotInChain(f, t, c);
      assert Apart(s, t) && last in s;
      ChainFrame(f, g, t);
    }
    forall d | d in Used(g)
      ensures exists t :: t in ds && d in t
    {
      if d == c || d in s {
        assert d in s + [c] && s + [c] in ds;
      } else {
        assert d in Used(f);
        var t :| t in cs && d in t;
        assert t in ds;
      }
    }
  }

  /** The table after removing everything from position k of chain s. */
  ghost function Trimmed(f: seq<nat>, s: seq<nat>, k: nat, eoc: nat): (h: seq<nat>)
    requires Chain(f, s) && k < |s|
    ensures |h| == |f|
  {
    Cleared(if k == 0 then f else f[s[k - 1] := eoc], s[k..])
  }

  lemma TrimKeepsOther(f: seq<nat>, s: seq<nat>, k: nat, eoc: nat, t: seq<nat>)
    requires Chain(f, s) && k < |s| && Chain(f, t) && Apart(t, s)
    ensures Chain(Trimmed(f, s, k, eoc), t) && Apart(t, s[..k]) && Apart(s[..k], t)
  {
    forall i | 0 <= i < |t|
      ensures Trimmed(f, s, k, eoc)[t[i]] == f[t[i]]
    {
      assert t[i] in t && t[i] !in s;
      assert t[i] !in s[k..];
    }
    ChainFrame(f, Trimmed(f, s, k, eoc), t);
  }

  lemma TrimUsed(f: seq<nat>, s: seq<nat>, k: nat, eoc: nat, d: nat)
    requires Chain(f, s) && k < |s| && eoc >= |f| && d in Used(Trimmed(f, s, k, eoc))
    ensures d in s[..k] || (d in Used(f) && d !in s)
  {
    assert s == s[..k] + s[k..];
  }

  /** Removing a suffix frees exactly that suffix, keeps the prefix and touches no other chain. */
  lemma TrimHeap(f: seq<nat>, cs: set<seq<nat>>, s: seq<nat>, k: nat, eoc: nat)
    requires Heap(f, cs) && s in cs && k < |s| && eoc >= |f|
    ensures Heap(Trimmed(f, s, k, eoc), cs - {s} + (if k == 0 then {} else {s[..k]}))
  {
    var g := Trimmed(f, s, k, eoc);
    var ds := cs - {s} + (if k == 0 then {} else {s[..k]});
    TrimmedPrefix(f, s, k, eoc);
    forall t | t in cs && t != s
      ensures Chain(g, t) && Apart(t, s[..k]) && Apart(s[..k], t)
    {
      TrimKeepsOther(f, s, k, eoc, t);
    }
    forall d | d in Used(g)
      ensures exists t :: t in ds && d in t
    {
      TrimUsed(f, s, k, eoc, d);
      if d in s[..k] {
        assert s[..k] in ds;
      } else {
        var t :| t in cs && d in t;
        assert t in ds;
      }
    }
  }

  lemma TrimmedPrefix(f: seq<nat>, s: seq<nat>, k: nat, eoc: nat)
    requires Chain(f, s) && k < |s| && eoc >= |f|
    ensures k > 0 ==> Chain(Trimmed(f, s, k, eoc), s[..k])
    ensures forall c :: c in s[..k] ==> c !in s[k..]
  {
    var g := Trimmed(f, s, k, eoc);
    forall i, j | 0 <= i < k && k <= j < |s|
      ensures s[i] != s[j]
    {
    }
    if k > 0 {
      forall i | 0 <= i < k
        ensures s[i] !in s[k..]
      {
      }
      ChainPrefix(f, s, k, eoc, g);
    }
  }

  /** Released, applied after ending the prefix, is the trim. */
  lemma ReleaseIsTrim(f: seq<nat>, s: seq<nat>, k: nat, eoc: nat)
    requires Chain(f, s) && k < |s| && eoc >= |f|
    ensures Released(if k == 0 then f else f[s[k - 1] := eoc], s[k]) == Walk(Trimmed(f, s, k, eoc), true)
  {
    var g := if k == 0 then f else f[s[k - 1] := eoc];
    ChainSuffix(f, s, k);
    TrimmedPrefix(f, s, k, eoc);
    forall i | 0 <= i < |s[k..]|
      ensures g[s[k..][i]] == f[s[k..][i]]
    {
      if k > 0 {
        assert s[k - 1] in s[..k];
      }
    }
    ChainFrame(f, g, s[k..]);
    ReleaseChain(g, s[k..]);
  }

  /** What a trim frees. */
  lemma TrimFrees(f: seq<nat>, s: seq<nat>, k: nat, eoc: nat)
    requires Chain(f, s) && k < |s| && eoc >= |f|
    ensures FreeSet(Trimmed(f, s, k, eoc)) == FreeSet(f) + Elems(s[k..])
    ensures Elems(s) == Elems(s[..k]) + Elems(s[k..])
    ensures NoOnes(f) ==> NoOnes(Trimmed(f, s, k, eoc))
    ensures forall c :: 0 <= c < |f| && c !in s ==> Trimmed(f, s, k, eoc)[c] == f[c]
  {
    ElemsSplit(s, k);
    var h := Trimmed(f, s, k, eoc);
    hide Trimmed, Chain;
    forall c: nat | c < |f|
      ensures c in FreeSet(h) <==> c in FreeSet(f) || c in s[k..]
      ensures f[c] != 1 ==> h[c] != 1
      ensures c !in s ==> h[c] == f[c]
    {
      TrimmedAt(f, s, k, eoc, c);
    }
    assert FreeSet(h) == FreeSet(f) + Elems(s[k..]) by {
      forall c | c in s[k..]
        ensures c < |f|
      {
        SuffixInRange(f, s, k, c);
      }
    }
  }

  lemma ElemsSplit(s: seq<nat>, k: nat)
    requires k <= |s|
    ensures Elems(s) == Elems(s[..k]) + Elems(s[k..])
  {
    assert s == s[..k] + s[k..];
  }

  lemma SuffixInRange(f: seq<nat>, s: seq<nat>, k: nat, c: nat)
    requires Chain(f, s) && k < |s| && c in s[k..]
    ensures InRange(f, c) && c in s
  {
    assert c in s;
  }

  /** What a trim does to one entry. */
  lemma TrimmedAt(f: seq<nat>, s: seq<nat>, k: nat, eoc: nat, c: nat)
    requires Chain(f, s) && k < |s| && eoc >= |f| && c < |f|
    ensures c in FreeSet(Trimmed(f, s, k, eoc)) <==> c in FreeSet(f) || c in s[k..]
    ensures f[c] != 1 ==> Trimmed(f, s, k, eoc)[c] != 1
    ensures c !in s ==> Trimmed(f, s, k, eoc)[c] == f[c]
  {
    if c in s[k..] {
      SuffixInRange(f, s, k, c);
    } else if k > 0 && c == s[k - 1] {
      ChainIsUsed(f, s, k - 1);
    }
  }

  lemma ChainIsUsed(f: seq<nat>, s: seq<nat>, i: nat)
    requires Chain(f, s) && i < |s|
    ensures f[s[i]] >= 2
  {
    assert i < |s| - 1 ==> f[s[i]] == s[i + 1] && InRange(f, s[i + 1]);
  }
}
