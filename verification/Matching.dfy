/** What a search finds, in terms of names: the first object whose long name is the query's but for case, or whose
    short name is. */
module NameMatching {
  import opened Bytes
  import opened LongNames
  import opened ShortNames
  import opened Directories
  import opened WholeNames
  import opened Listing
  import opened NameLists

  /** Upper-casing keeps the terminator, and makes nothing else one. */
  ghost predicate Folds(up: Unit -> Unit) {
    forall u: Unit :: up(u) == 0 <==> u == 0
  }

  /** The names are equal but for case. */
  ghost predicate SameFolded(up: Unit -> Unit, a: seq<Unit>, b: seq<Unit>) {
    |a| == |b| && forall k :: 0 <= k < |a| ==> up(a[k]) == up(b[k])
  }

  /** A query for the long name lfn and its short name, or for a short name alone. */
  ghost predicate IsQuery(q: Query, lfn: seq<Unit>) {
    && Usable(q.fn)
    && (!q.noLong ==> Name(lfn) && HoldsFrom(q.buf, lfn, 0) && Folds(q.up))
  }

  /** The object is what the query asks for. */
  ghost predicate IsMeant(q: Query, lfn: seq<Unit>, o: Item) {
    (!q.noLong && o.n > 1 && SameFolded(q.up, lfn, o.lfn)) || (!q.loss && o.fn == q.fn)
  }

  // ---- Comparing long names part by part -------------------------------------------------------

  /** Unit i of the name, or its terminator, is in the buffer. */
  ghost predicate UnitAgrees(q: Query, lfn: seq<Unit>, i: nat)
    requires i < 256
  {
    q.up(UnitAt(lfn, i)) == q.up(q.buf[i])
  }

  /** Part ord of the name is in the buffer; a last part that leaves no room for the terminator ends the buffer's
      name too. */
  ghost predicate PartAgrees(q: Query, lfn: seq<Unit>, ord: nat)
    requires 1 <= ord <= Parts(lfn) && |lfn| <= MAX_LFN
  {
    && (forall i: nat :: 13 * (ord - 1) <= i < 13 * ord && i <= |lfn| ==> UnitAgrees(q, lfn, i))
    && (|lfn| == 13 * ord ==> q.buf[|lfn|] == 0)
  }

  lemma SlotOf(e: Entry, lfn: seq<Unit>, ord: nat, sum: byte, t: nat)
    requires Name(lfn) && IsPart(e, lfn, ord, sum) && t < 13
    ensures var i := 13 * (ord - 1) + t; LdSlot(e, t) == if i <= |lfn| then UnitAt(lfn, i) else FILLER
    ensures LdSlot(e, t) == 0 <==> 13 * (ord - 1) + t == |lfn|
  {
    hide LdSlot;
  }

  lemma PartAt(e: Entry, lfn: seq<Unit>, ord: nat, sum: byte)
    requires Name(lfn) && IsPart(e, lfn, ord, sum)
    ensures PartStart(e) == 13 * (ord - 1) && (Starts(e) <==> |lfn| <= 13 * ord) && 1 <= ord <= 20
    ensures LdWord(e, LDIR_FST_CLUS_LO) == 0
  {
    hide LdSlot;
    PartBounds(lfn, ord);
    PartOrder(lfn, e, ord, sum);
  }

  /** The slots up to s match if and only if their units do. */
  lemma SlotsAgree(q: Query, e: Entry, lfn: seq<Unit>, ord: nat, sum: byte, s: nat)
    requires Name(lfn) && IsPart(e, lfn, ord, sum) && s <= 13 && 13 * (ord - 1) + s <= |lfn| + 1
    ensures SlotsMatch(q, e, 13 * (ord - 1), s) <==>
            forall i: nat :: 13 * (ord - 1) <= i < 13 * (ord - 1) + s ==> UnitAgrees(q, lfn, i)
  {
    var i0 := 13 * (ord - 1);
    forall t: nat | t < s
      ensures LdSlot(e, t) == UnitAt(lfn, i0 + t) && (t + 1 < s ==> LdSlot(e, t) != 0)
    {
      SlotOf(e, lfn, ord, sum, t);
    }
    hide LdSlot, UnitAt;
    if SlotsMatch(q, e, i0, s) {
      forall i: nat | i0 <= i < i0 + s
        ensures UnitAgrees(q, lfn, i)
      {
        assert LdSlot(e, i - i0) == UnitAt(lfn, i);
      }
    } else if forall i: nat :: i0 <= i < i0 + s ==> UnitAgrees(q, lfn, i) {
      forall t: nat | t < s
        ensures q.up(LdSlot(e, t)) == q.up(q.buf[i0 + t])
      {
        assert UnitAgrees(q, lfn, i0 + t);
      }
    }
  }

  lemma FillersBehind(e: Entry, lfn: seq<Unit>, ord: nat, sum: byte)
    requires Name(lfn) && IsPart(e, lfn, ord, sum) && |lfn| < 13 * ord
    ensures 0 <= |lfn| - 13 * (ord - 1) < 13 && EndsIn(e, |lfn| - 13 * (ord - 1) + 1)
  {
    PartBounds(lfn, ord);
    forall t: nat | t < 13
      ensures t == |lfn| - 13 * (ord - 1) ==> LdSlot(e, t) == 0
      ensures t > |lfn| - 13 * (ord - 1) ==> LdSlot(e, t) == FILLER
    {
      SlotOf(e, lfn, ord, sum, t);
    }
  }

  /** The comparison of one part says whether it agrees. */
  lemma PartCompared(q: Query, e: Entry, lfn: seq<Unit>, ord: nat, sum: byte)
    requires Name(lfn) && IsPart(e, lfn, ord, sum)
    ensures PartMatches(q, e) <==> PartAgrees(q, lfn, ord)
  {
    PartAt(e, lfn, ord, sum);
    PartBounds(lfn, ord);
    var i0 := 13 * (ord - 1);
    forall t: nat | t < 13
      ensures LdSlot(e, t) == 0 <==> i0 + t == |lfn|
    {
      SlotOf(e, lfn, ord, sum, t);
    }
    if |lfn| < 13 * ord {
      var s := |lfn| - i0 + 1;
      FillersBehind(e, lfn, ord, sum);
      SlotsAgree(q, e, lfn, ord, sum, s);
    } else {
      SlotsAgree(q, e, lfn, ord, sum, 13);
    }
    hide LdSlot, UnitAgrees, IsPart;
  }

  /** All parts from ord on agree. */
  ghost predicate AgreesFrom(q: Query, lfn: seq<Unit>, ord: nat)
    requires 1 <= ord && |lfn| <= MAX_LFN
  {
    forall k: nat :: ord <= k <= Parts(lfn) ==> PartAgrees(q, lfn, k)
  }

  /** All parts agree if and only if the names are equal but for case. */
  lemma AllAgree(q: Query, lfn: seq<Unit>, m: seq<Unit>)
    requires Name(lfn) && HoldsFrom(q.buf, lfn, 0) && Folds(q.up) && Name(m) && m != []
    ensures AgreesFrom(q, m, 1) <==> SameFolded(q.up, lfn, m)
  {
    if AgreesFrom(q, m, 1) {
      forall i: nat | i <= |m|
        ensures UnitAgrees(q, m, i)
      {
        var ord := if i == |m| && i % 13 == 0 then i / 13 else i / 13 + 1;
        assert PartAgrees(q, m, ord);
      }
      assert UnitAgrees(q, m, if |lfn| < |m| then |lfn| else |m|);
      assert |lfn| == |m|;
      forall k | 0 <= k < |m|
        ensures q.up(lfn[k]) == q.up(m[k])
      {
        assert UnitAgrees(q, m, k);
      }
    }
  }

  // ---- Scanning an object ----------------------------------------------------------------------

  /** What the scan knows after the first k parts. */
  lemma {:induction false} PartsScanned(q: Query, es: seq<Entry>, o: Item, s: Scan, k: nat)
    requires Block(es, o.at, o.n, o.lfn, o.fn) && !q.noLong && s.ord == NO_ORDER && s.blk == NO_BLOCK && 0 < k < o.n
    ensures Name(o.lfn) && Advance(q, es, o.at, s, o.at + k) ==
                           At(Scan(if AgreesFrom(q, o.lfn, o.n - k) then o.n - 1 - k else NO_ORDER, SumOf(o.fn), o.at))
    decreases k
  {
    hide PartMatches, IsPart, SumOf, PartAgrees;
    var e, ord := es[o.at + k - 1], o.n - k;
    PartOrder(o.lfn, e, ord, SumOf(o.fn));
    PartFields(o.lfn, e, ord, SumOf(o.fn));
    PartCompared(q, e, o.lfn, ord, SumOf(o.fn));
    assert AgreesFrom(q, o.lfn, ord) <==> PartAgrees(q, o.lfn, ord) && AgreesFrom(q, o.lfn, ord + 1);
    if k > 1 {
      PartsScanned(q, es, o, s, k - 1);
    }
    AdvanceOn(q, es, o.at, s, o.at + k - 1);
  }

  /** Long names are passed over when only short ones are looked at. */
  lemma {:induction false} PartsSkipped(q: Query, es: seq<Entry>, o: Item, s: Scan, k: nat)
    requires Block(es, o.at, o.n, o.lfn, o.fn) && q.noLong && k < o.n
    ensures Advance(q, es, o.at, s, o.at + k) == At(s)
    decreases k
  {
    hide PartMatches, IsPart, SumOf;
    if k > 0 {
      PartOrder(o.lfn, es[o.at + k - 1], o.n - k, SumOf(o.fn));
      PartsSkipped(q, es, o, s, k - 1);
      AdvanceOn(q, es, o.at, s, o.at + k - 1);
    }
  }

  /** Where the name found starts, as the search reports it. */
  function BlockOf(q: Query, o: Item): int {
    if o.n == 1 || q.noLong then NO_BLOCK else o.at
  }

  /** The scan comes to the short name knowing whether the long one agreed. */
  lemma AtShortName(q: Query, es: seq<Entry>, o: Item, lfn: seq<Unit>) returns (s: Scan)
    requires Block(es, o.at, o.n, o.lfn, o.fn) && IsQuery(q, lfn)
    ensures o.End() <= |es| && Advance(q, es, o.at, SCAN_START, o.End() - 1) == At(s) && s.blk == BlockOf(q, o)
    ensures s.ord == 0 && s.sum == SumOf(o.fn) <==> !q.noLong && o.n > 1 && SameFolded(q.up, lfn, o.lfn)
  {
    hide IsPart, SumOf, Folds, SameFolded, AgreesFrom;
    s := SCAN_START;
    if q.noLong {
      PartsSkipped(q, es, o, s, o.n - 1);
    } else if o.n > 1 {
      PartsScanned(q, es, o, s, o.n - 1);
      AllAgree(q, lfn, o.lfn);
      s := Scan(if AgreesFrom(q, o.lfn, 1) then 0 else NO_ORDER, SumOf(o.fn), o.at);
    }
  }

  /** From rest, the search finds the object or goes on behind it. */
  lemma ObjectSearched(q: Query, es: seq<Entry>, o: Item, lfn: seq<Unit>)
    requires Block(es, o.at, o.n, o.lfn, o.fn) && IsQuery(q, lfn)
    ensures o.End() <= |es|
    ensures Search(q, es, o.at, SCAN_START) ==
            if IsMeant(q, lfn, o) then Found(o.End() - 1, BlockOf(q, o)) else Search(q, es, o.End(), SCAN_START)
  {
    hide IsPart, SumOf, SameFolded, PartMatches, Advance;
    var s := AtShortName(q, es, o, lfn);
    SearchAdvances(q, es, o.at, SCAN_START, o.End() - 1);
    if !IsMeant(q, lfn, o) {
      RestSearch(q, es, o.End(), Reset(s), SCAN_START);
    }
  }

  /** What a listing passes over is no object. */
  lemma {:induction false} PassedSearched(q: Query, es: seq<Entry>, at: nat, p: nat)
    requires WellFormed(es) && Usable(q.fn) && Comes(es, at, p)
    ensures Search(q, es, at, SCAN_START) == Search(q, es, p, SCAN_START)
    decreases p - at
  {
    hide SumOf, PartMatches;
    if at < p {
      PassedAtRest(q, es[at], at);
      RestSearch(q, es, at + 1, Reset(SCAN_START), SCAN_START);
      PassedSearched(q, es, at + 1, p);
    }
  }

  lemma PassedAtRest(q: Query, e: Entry, i: nat)
    requires Passed(e) && e[0] != 0 && Usable(q.fn) && (IsLong(e) ==> 1 <= Order(e) <= 20)
    ensures Look(q, SCAN_START, e, i) == GoOn(Reset(SCAN_START))
  {
    hide SumOf, PartMatches;
    assert e[..11][0] == e[0];
  }

  lemma {:induction false} NothingLeft(q: Query, es: seq<Entry>, at: nat)
    requires WellFormed(es) && Usable(q.fn) && at <= |es| && forall j :: at <= j < |es| ==> Passed(es[j])
    ensures Search(q, es, at, SCAN_START).NotThere?
    decreases |es| - at
  {
    hide SumOf, PartMatches;
    if at < |es| && es[at][0] != 0 {
      PassedAtRest(q, es[at], at);
      RestSearch(q, es, at + 1, Reset(SCAN_START), SCAN_START);
      NothingLeft(q, es, at + 1);
    }
  }

  // ---- Searching a directory -------------------------------------------------------------------

  /** The first object from k on that the query asks for. */
  ghost function Meant(q: Query, lfn: seq<Unit>, os: seq<Item>, k: nat): (m: nat)
    requires k <= |os|
    ensures k <= m <= |os| && (m < |os| ==> IsMeant(q, lfn, os[m]))
    ensures forall j :: k <= j < m ==> !IsMeant(q, lfn, os[j])
    decreases |os| - k
  {
    if k < |os| && !IsMeant(q, lfn, os[k]) then Meant(q, lfn, os, k + 1) else k
  }

  lemma {:induction false} SearchFinds(q: Query, lfn: seq<Unit>, es: seq<Entry>, os: seq<Item>, k: nat, at: nat)
    requires WellFormed(es) && Tiled(es, os) && Between(os, k, at) && at <= |es| && IsQuery(q, lfn)
    ensures var m := Meant(q, lfn, os, k);
            Search(q, es, at, SCAN_START) ==
            if m < |os| then Found(os[m].End() - 1, BlockOf(q, os[m])) else NotThere
    decreases |os| - k
  {
    hide WellFormed, Tiled, Block, Usable, IsQuery, IsMeant, Search, Passed, Comes, Between;
    NextObject(es, os, k, at);
    Short(q, lfn);
    if k < |os| {
      AfterObject(es, os, k, at);
      PassedSearched(q, es, at, os[k].at);
      ObjectSearched(q, es, os[k], lfn);
      if !IsMeant(q, lfn, os[k]) {
        SearchFinds(q, lfn, es, os, k + 1, os[k].End());
      }
    } else {
      NothingLeft(q, es, at);
    }
  }

  lemma Short(q: Query, lfn: seq<Unit>)
    requires IsQuery(q, lfn)
    ensures Usable(q.fn)
  {
  }

  /** A search finds the first object that is meant, at its own entries, and nothing if none is. */
  lemma FindsTheMeant(q: Query, lfn: seq<Unit>, es: seq<Entry>, os: seq<Item>)
    requires WellFormed(es) && Tiled(es, os) && IsQuery(q, lfn)
    ensures var m := Meant(q, lfn, os, 0);
            Find(q, es) == if m < |os| then Found(os[m].End() - 1, BlockOf(q, os[m])) else NotThere
  {
    hide WellFormed, Tiled, IsQuery, IsMeant;
    FirstObject(os);
    SearchFinds(q, lfn, es, os, 0, 0);
  }
}
