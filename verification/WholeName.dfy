/** Names in any well-formed directory: what a search finds is a whole name, and removing it leaves all others alone. */
module WholeNames {
  import opened LongNames
  import opened Directories

  /** Entries [p, at] are one name: the parts of its long name, if it has one, from the first on, and the short name. */
  ghost predicate WholeName(es: seq<Entry>, p: nat, at: nat) {
    && p <= at < |es| && !Free(es[at]) && !IsLong(es[at]) && !IsVolume(es[at])
    && (forall j :: p <= j < at ==> IsLong(es[j]))
    && (p < at ==> Starts(es[p])) && (p > 0 ==> !IsLong(es[p - 1]))
  }

  // ---- What a search finds ---------------------------------------------------------------------

  /** Before entry i, the scan remembers the start of the long name it is in, or none. */
  ghost predicate Remembers(es: seq<Entry>, i: nat, blk: int)
    requires i <= |es|
  {
    if i == 0 || !IsLong(es[i - 1]) then blk == NO_BLOCK
    else
      && 0 <= blk < i && Starts(es[blk]) && (forall j :: blk <= j < i ==> IsLong(es[j]))
      && (blk > 0 ==> !IsLong(es[blk - 1]))
  }

  /** Where the name found begins. */
  function Begin(f: Finding): int
    requires f.Found?
  {
    if f.blk == NO_BLOCK then f.at else f.blk
  }

  ghost predicate IsWhole(es: seq<Entry>, f: Finding) {
    f.Found? ==> Begin(f) >= 0 && WholeName(es, Begin(f), f.at)
  }

  lemma StillRemembers(q: Query, es: seq<Entry>, i: nat, s: Scan)
    requires WellFormed(es) && !q.noLong && i < |es| && Remembers(es, i, s.blk)
    ensures match Look(q, s, es[i], i)
            case Ended => true
            case Matched(b) => IsWhole(es, Found(i, b))
            case GoOn(t) => Remembers(es, i + 1, t.blk)
  {
    hide PartMatches, SumOf, Order;
    if i > 0 {
      assert Follows(es[i - 1], es[i]);
    }
  }

  lemma {:induction false} SearchFindsWhole(q: Query, es: seq<Entry>, i: nat, s: Scan)
    requires WellFormed(es) && !q.noLong && i <= |es| && Remembers(es, i, s.blk)
    ensures IsWhole(es, Search(q, es, i, s))
    decreases |es| - i
  {
    hide Look, WellFormed, Remembers, WholeName;
    if i < |es| {
      StillRemembers(q, es, i, s);
      match Look(q, s, es[i], i)
      case Ended =>
      case Matched(_) =>
      case GoOn(t) => SearchFindsWhole(q, es, i + 1, t);
    }
  }

  /** What a search finds in a well-formed directory is one whole name. */
  lemma FoundIsWhole(q: Query, es: seq<Entry>)
    requires WellFormed(es) && !q.noLong
    ensures IsWhole(es, Find(q, es))
  {
    hide WellFormed;
    SearchFindsWhole(q, es, 0, SCAN_START);
  }

  // ---- Removing a whole name -------------------------------------------------------------------

  /** Without it the directory is still well formed. */
  lemma WholeRemoved(es: seq<Entry>, gs: seq<Entry>, p: nat, at: nat)
    requires WellFormed(es) && WholeName(es, p, at) && Removed(es, gs, p, at - p + 1)
    ensures WellFormed(gs)
  {
    forall i | 0 <= i < |gs| - 1
      ensures Follows(gs[i], gs[i + 1])
    {
      assert Follows(es[i], es[i + 1]);
    }
  }

  lemma {:induction false} LongScanned(q: Query, es: seq<Entry>, p: nat, s: Scan, at: nat)
    requires p <= at <= |es| && forall j :: p <= j < at ==> IsLong(es[j])
    ensures Advance(q, es, p, s, at).At?
    decreases at - p
  {
    hide PartMatches, Order;
    if p < at {
      match Look(q, s, es[p], p)
      case GoOn(t) => LongScanned(q, es, p + 1, t, at);
    }
  }

  /** A scan that expects nothing goes on alike, whatever checksum it saw last. */
  lemma {:induction false} RestSearch(q: Query, es: seq<Entry>, i: nat, s: Scan, t: Scan)
    requires s.ord == t.ord == NO_ORDER && s.blk == t.blk == NO_BLOCK
    ensures Search(q, es, i, s) == Search(q, es, i, t)
    decreases |es| - i
  {
    hide PartMatches, SumOf;
    if i < |es| {
      match Look(q, s, es[i], i)
      case Ended =>
      case Matched(_) =>
      case GoOn(u) =>
        if !(IsLong(es[i]) && Starts(es[i]) && !q.noLong) {
          RestSearch(q, es, i + 1, u, Look(q, t, es[i], i).s);
        }
    }
  }

  /** Every search that does not find the name finds what it found before. */
  lemma OthersFound(q: Query, es: seq<Entry>, gs: seq<Entry>, p: nat, at: nat)
    requires WellFormed(es) && WholeName(es, p, at) && Removed(es, gs, p, at - p + 1)
    requires var f := Find(q, es); !(f.Found? && f.at == at)
    ensures Find(q, gs) == Find(q, es)
  {
    hide WellFormed, Look;
    assert es[..p] == gs[..p];
    AdvanceFrame(q, es, gs, 0, SCAN_START, p);
    SearchAdvances(q, es, 0, SCAN_START, p);
    SearchAdvances(q, gs, 0, SCAN_START, p);
    var a := Advance(q, es, 0, SCAN_START, p);
    if a.At? {
      AtRest(q, es, p);
      FreeScanned(q, gs, p, a.s, at + 1);
      SearchAdvances(q, gs, p, a.s, at + 1);
      LongScanned(q, es, p, a.s, at);
      SearchAdvances(q, es, p, a.s, at);
      var s := Advance(q, es, p, a.s, at).s;
      Passes(q, es, at, s);
      RestSearch(q, es, at + 1, Reset(s), Reset(a.s));
      SameTail(q, es, gs, at + 1, Reset(a.s));
    }
  }

  lemma Passes(q: Query, es: seq<Entry>, at: nat, s: Scan)
    requires at < |es| && !Free(es[at]) && !IsLong(es[at]) && !IsVolume(es[at])
    ensures Search(q, es, at, s) == Found(at, s.blk) || Search(q, es, at, s) == Search(q, es, at + 1, Reset(s))
  {
    hide SumOf, PartMatches;
  }
}
