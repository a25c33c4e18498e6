/** The enclave's emulation of mmap and munmap: an ordered index of allocated regions. */
module MemoryRegions {

  const PAGE: nat := 4096
  const WORD64: nat := 0x1_0000_0000_0000_0000

  /** An allocated range and how many of its bytes are still committed. */
  datatype Region = Region(base: nat, initial: nat, committed: nat) {
    function End(): nat {
      base + initial
    }

    /** The range [p, p + size) lies in the region. */
    predicate Within(p: nat, size: nat) {
      base <= p && p + size <= End()
    }

    /** The range starts in or behind the region and ends, past the end of the address space, before the region does. */
    predicate WrapsInto(p: nat, size: nat) {
      base <= p && WORD64 <= p + size <= WORD64 + End()
    }

    /** The engine's test for it, in 64-bit arithmetic. */
    predicate Accepts(p: nat, size: nat) {
      base <= p && End() >= (p + size) % WORD64
    }
  }

  /** Regions in the order of their addresses, none overlapping the next. */
  ghost predicate Ordered(rs: seq<Region>) {
    && (forall i, j :: 0 <= i < j < |rs| ==> rs[i].base < rs[j].base && rs[i].End() <= rs[j].base)
    && forall i :: 0 <= i < |rs| ==> rs[i].End() < WORD64
  }

  /** Position i is that of the last region that starts at or before p, or 0 if all start after it. */
  ghost predicate Nearest(rs: seq<Region>, p: nat, i: nat) {
    && i < |rs|
    && (forall j :: i < j < |rs| ==> p < rs[j].base)
    && (rs[i].base <= p || i == 0)
  }

  /** Looking at the nearest region decides whether any region holds the range. */
  lemma NearestDecides(rs: seq<Region>, p: nat, size: nat, i: nat)
    requires Ordered(rs) && Nearest(rs, p, i)
    ensures (exists j :: 0 <= j < |rs| && rs[j].Within(p, size)) <==> rs[i].Within(p, size)
    ensures size > 0 ==> forall j :: 0 <= j < |rs| && rs[j].Within(p, size) ==> j == i
  {
    forall j | 0 <= j < |rs| && rs[j].Within(p, size)
      ensures rs[i].Within(p, size) && (size > 0 ==> j == i)
    {
    }
  }

  /** No address has two nearest regions. */
  lemma NearestIsOne(rs: seq<Region>, p: nat, i: nat, j: nat)
    requires Ordered(rs) && Nearest(rs, p, i) && Nearest(rs, p, j)
    ensures i == j
  {
  }

  /** The engine's test accepts what is in the region and what wraps into it. */
  lemma TestAccepts(r: Region, p: nat, size: nat)
    requires p < WORD64 && size < WORD64 && r.End() < WORD64
    ensures r.Accepts(p, size) <==> r.Within(p, size) || r.WrapsInto(p, size)
  {
    if p + size < WORD64 {
      assert (p + size) % WORD64 == p + size;
    } else {
      assert (p + size) % WORD64 == p + size - WORD64;
    }
  }

  /** The engine's test is right if and only if the range does not wrap around the address space, or wraps past
      what the region could hold. */
  lemma TestIsRight(r: Region, p: nat, size: nat)
    requires p < WORD64 && size < WORD64 && r.End() < WORD64
    ensures (r.Accepts(p, size) <==> r.Within(p, size)) <==>
            p < r.base || p + size < WORD64 || p + size - WORD64 > r.End()
  {
    if p + size < WORD64 {
      assert (p + size) % WORD64 == p + size;
    } else {
      assert (p + size) % WORD64 == p + size - WORD64;
    }
  }

  /** Whole pages for a request; a request of nearly the whole address space wraps to none. */
  function Rounded(size: nat): nat {
    (size + PAGE - 1) % WORD64 / PAGE * PAGE
  }

  /** Such a range: one page in, and all but one page of the address space long; and a request for all but a byte of
      it. */
  lemma WrappedRange()
    ensures Region(PAGE, PAGE, PAGE).Accepts(PAGE, WORD64 - PAGE)
            && !Region(PAGE, PAGE, PAGE).Within(PAGE, WORD64 - PAGE)
    ensures Rounded(WORD64 - 1) == 0
  {
  }

  lemma RoundedHolds(size: nat)
    requires 0 < size < WORD64
    ensures if size + PAGE - 1 < WORD64 then size <= Rounded(size) < size + PAGE && Rounded(size) % PAGE == 0
            else Rounded(size) == 0
  {
    if size + PAGE - 1 >= WORD64 {
      assert (size + PAGE - 1) % WORD64 == size + PAGE - 1 - WORD64 < PAGE;
    }
  }

  // ---- Freed ranges ----------------------------------------------------------------------------

  datatype Range = Range(start: nat, size: nat)

  /** The sizes of ranges together. */
  function Total(fs: seq<Range>): nat {
    if fs == [] then 0 else Total(fs[..|fs| - 1]) + fs[|fs| - 1].size
  }

  /** The addresses of a range. */
  ghost function Span(f: Range): (s: set<nat>)
    ensures forall x: nat :: x in s <==> f.start <= x < f.start + f.size
    ensures |s| == f.size
    decreases f.size
  {
    if f.size == 0 then {} else Span(Range(f.start, f.size - 1)) + {f.start + f.size - 1}
  }

  /** The addresses in any of the ranges. */
  ghost function Spans(fs: seq<Range>): set<nat> {
    if fs == [] then {} else Spans(fs[..|fs| - 1]) + Span(fs[|fs| - 1])
  }

  /** No address is in two of the ranges: each is apart from those before it. */
  ghost predicate Apart(fs: seq<Range>) {
    fs == [] || (Apart(fs[..|fs| - 1]) && Spans(fs[..|fs| - 1]) !! Span(fs[|fs| - 1]))
  }

  lemma UnionCard(a: set<nat>, b: set<nat>)
    ensures |a + b| <= |a| + |b|
    ensures |a + b| == |a| + |b| <==> a !! b
  {
    var common := a * b;
    assert b == (b - common) + common && a + b == a + (b - common);
  }

  /** Ranges have as many addresses as their sizes say if and only if they are apart. */
  lemma {:induction false} SpansCount(fs: seq<Range>)
    ensures |Spans(fs)| <= Total(fs)
    ensures |Spans(fs)| == Total(fs) <==> Apart(fs)
    decreases |fs|
  {
    if fs != [] {
      var before := fs[..|fs| - 1];
      SpansCount(before);
      UnionCard(Spans(before), Span(fs[|fs| - 1]));
    }
  }

  lemma Subset(a: set<nat>, b: set<nat>)
    requires a <= b
    ensures |a| <= |b| && (|a| == |b| ==> a == b)
  {
    assert b == a + (b - a);
  }

  /** When the sizes freed in a region are all of it, and so it is erased, every byte of it was freed if and only if the
      ranges freed were apart and in the region. */
  lemma ErasedWhenFreed(r: Region, fs: seq<Range>)
    requires Total(fs) == r.initial
    ensures Span(Range(r.base, r.initial)) <= Spans(fs) <==> Apart(fs) && Spans(fs) <= Span(Range(r.base, r.initial))
  {
    hide Apart, Spans;
    var all := Span(Range(r.base, r.initial));
    SpansCount(fs);
    if all <= Spans(fs) {
      Subset(all, Spans(fs));
    }
    if Spans(fs) <= all {
      Subset(Spans(fs), all);
    }
  }

  // ---- The index -------------------------------------------------------------------------------

  const FAILED: int := -1

  /** What a region's counter says: the sizes freed so far are off, and a region with bytes has some left. */
  ghost predicate Counted(r: Region, freed: map<nat, seq<Range>>) {
    (r.committed == 0 ==> r.initial == 0) && r.base in freed && r.committed + Total(freed[r.base]) == r.initial
  }

  ghost predicate AllCounted(rs: seq<Region>, freed: map<nat, seq<Range>>) {
    forall i :: 0 <= i < |rs| ==> Counted(rs[i], freed)
  }

  function InsertAt(rs: seq<Region>, i: nat, r: Region): (qs: seq<Region>)
    requires i <= |rs|
    ensures |qs| == |rs| + 1
  {
    rs[..i] + [r] + rs[i..]
  }

  lemma InsertIndex(rs: seq<Region>, i: nat, r: Region, j: nat)
    requires i <= |rs| && j <= |rs|
    ensures InsertAt(rs, i, r)[j] == if j < i then rs[j] else if j == i then r else rs[j - 1]
  {
  }

  function EraseAt(rs: seq<Region>, i: nat): (qs: seq<Region>)
    requires i < |rs|
    ensures |qs| == |rs| - 1
  {
    rs[..i] + rs[i + 1..]
  }

  lemma EraseIndex(rs: seq<Region>, i: nat, j: nat)
    requires i < |rs| && j < |rs| - 1
    ensures EraseAt(rs, i)[j] == rs[if j < i then j else j + 1]
  {
  }

  /** Region r fits between regions i - 1 and i. */
  ghost predicate Room(rs: seq<Region>, r: Region, i: nat) {
    && i <= |rs| && r.End() < WORD64
    && (forall j :: 0 <= j < i ==> rs[j].base < r.base && rs[j].End() <= r.base)
    && forall j :: i <= j < |rs| ==> r.base < rs[j].base && r.End() <= rs[j].base
  }

  lemma Inserted(rs: seq<Region>, i: nat, r: Region, freed: map<nat, seq<Range>>)
    requires Ordered(rs) && AllCounted(rs, freed) && Room(rs, r, i) && r.committed == r.initial
    ensures Ordered(InsertAt(rs, i, r)) && AllCounted(InsertAt(rs, i, r), freed[r.base := []])
  {
    var qs := InsertAt(rs, i, r);
    hide InsertAt;
    forall j, k | 0 <= j < k < |qs|
      ensures qs[j].base < qs[k].base && qs[j].End() <= qs[k].base
    {
      InsertIndex(rs, i, r, j);
      InsertIndex(rs, i, r, k);
    }
    forall j | 0 <= j < |qs|
      ensures Counted(qs[j], freed[r.base := []]) && qs[j].End() < WORD64
    {
      InsertIndex(rs, i, r, j);
      if j < i {
        assert Counted(rs[j], freed);
      } else if j > i {
        assert Counted(rs[j - 1], freed);
      }
    }
  }

  lemma TotalMore(fs: seq<Range>, f: Range)
    ensures Total(fs + [f]) == Total(fs) + f.size
  {
    assert (fs + [f])[..|fs|] == fs;
  }

  /** From rs to qs, size bytes were taken off region i, which is gone if none are left. */
  ghost predicate TakenOff(rs: seq<Region>, qs: seq<Region>, i: nat, p: nat, size: nat)
    requires i < |rs|
  {
    && rs[i].Accepts(p, size) && rs[i].committed >= size
    && qs == if rs[i].committed == size then EraseAt(rs, i) else rs[i := rs[i].(committed := rs[i].committed - size)]
  }

  lemma TakenOffKeeps(rs: seq<Region>, qs: seq<Region>, i: nat, p: nat, size: nat, freed: map<nat, seq<Range>>)
    requires Ordered(rs) && AllCounted(rs, freed) && i < |rs| && TakenOff(rs, qs, i, p, size)
    ensures rs[i].base in freed && Ordered(qs)
    ensures AllCounted(qs, freed[rs[i].base := freed[rs[i].base] + [Range(p, size)]])
  {
    var r := rs[i];
    assert Counted(r, freed);
    TotalMore(freed[r.base], Range(p, size));
    var after := freed[r.base := freed[r.base] + [Range(p, size)]];
    hide EraseAt, Total;
    var gone := r.committed == size;
    forall j | 0 <= j < |qs|
      ensures Counted(qs[j], after) && qs[j].End() < WORD64
    {
      TakenIndex(rs, qs, i, p, size, j);
      assert Counted(rs[if gone && j >= i then j + 1 else j], freed);
    }
    forall j, k | 0 <= j < k < |qs|
      ensures qs[j].base < qs[k].base && qs[j].End() <= qs[k].base
    {
      TakenIndex(rs, qs, i, p, size, j);
      TakenIndex(rs, qs, i, p, size, k);
    }
  }

  lemma TakenIndex(rs: seq<Region>, qs: seq<Region>, i: nat, p: nat, size: nat, j: nat)
    requires i < |rs| && TakenOff(rs, qs, i, p, size) && j < |qs|
    ensures var k := if rs[i].committed == size && j >= i then j + 1 else j;
            && k < |rs| && (rs[i].committed == size ==> k != i)
            && qs[j] == if k == i then rs[i].(committed := rs[i].committed - size) else rs[k]
  {
    if rs[i].committed == size {
      EraseIndex(rs, i, j);
    }
  }

  class MemoryManager {
    var regions: seq<Region>
    /** For each region, the ranges freed in it so far. */
    ghost var freed: map<nat, seq<Range>>

    ghost predicate Valid()
      reads this
    {
      Ordered(regions) && AllCounted(regions, freed)
    }

    constructor ()
      ensures Valid() && regions == []
    {
      regions, freed := [], map[];
    }

    /** The first region at or after p. */
    method LowerBound(p: nat) returns (i: nat)
      requires Valid()
      ensures i <= |regions| && (forall j :: 0 <= j < i ==> regions[j].base < p) && forall j :: i <= j < |regions| ==>
              p <= regions[j].base
    {
      i := 0;
      while i < |regions| && regions[i].base < p
        invariant i <= |regions| && forall j :: 0 <= j < i ==> regions[j].base < p
      {
        i := i + 1;
      }
    }

    /** The region to look at for address p. */
    method Lookup(p: nat) returns (i: nat)
      requires Valid() && regions != []
      ensures Nearest(regions, p, i)
    {
      i := LowerBound(p);
      if i < |regions| {
        if regions[i].base != p && i > 0 {
          i := i - 1;
        }
      } else if i > 0 {
        i := i - 1;
      }
    }

    /** Check that a range is allocated: p if the engine's test accepts it, failure otherwise. */
    method Check(size: nat, p: nat) returns (ret: int)
      requires Valid() && 0 < p < WORD64 && size < WORD64
      ensures ret == p || ret == -1
      ensures size == 0 ==> ret == -1
      ensures size > 0 && p + size < WORD64 ==>
              (ret == p <==> exists j :: 0 <= j < |regions| && regions[j].Within(p, size))
      ensures p + size >= WORD64 ==>
              (ret == p <==> exists j: nat :: Nearest(regions, p, j) && regions[j].WrapsInto(p, size))
    {
      if size == 0 || regions == [] {
        return FAILED;
      }
      var i := Lookup(p);
      NearestDecides(regions, p, size, i);
      TestAccepts(regions[i], p, size);
      forall j: nat | Nearest(regions, p, j)
        ensures j == i
      {
        NearestIsOne(regions, p, i, j);
      }
      ret := if regions[i].Accepts(p, size) then p else FAILED;
    }

    /** Allocate memory; at is where the allocator puts it, apart from every region, or 0 if it has none. */
    method Alloc(size: nat, at: nat) returns (ret: int, ghost i: nat)
      requires Valid() && size < WORD64
      requires at == 0 || exists k: nat :: Room(regions, Region(at, Rounded(size), Rounded(size)), k)
      modifies this
      ensures Valid()
      ensures size == 0 ==> ret == -1
      ensures size > 0 ==> ret == at
      ensures size == 0 || at == 0 ==> regions == old(regions)
      ensures size > 0 && at != 0 ==>
              i <= |old(regions)| && regions == InsertAt(old(regions), i, Region(at, Rounded(size), Rounded(size)))
    {
      hide Ordered, AllCounted, Rounded, InsertAt;
      i := 0;
      if size == 0 {
        return FAILED, i;
      }
      ret := at;
      if at != 0 {
        var r := Region(at, Rounded(size), Rounded(size));
        var k := LowerBound(at);
        ghost var room: nat :| Room(regions, r, room);
        SamePlace(regions, r, k, room);
        Inserted(regions, k, r, freed);
        regions := InsertAt(regions, k, r);
        freed := freed[at := []];
        i := k;
      }
    }

    static lemma SamePlace(rs: seq<Region>, r: Region, i: nat, k: nat)
      requires Room(rs, r, k)
      requires i <= |rs| && (forall j :: 0 <= j < i ==> rs[j].base < r.base) && forall j :: i <= j < |rs| ==>
               r.base <= rs[j].base
      ensures i == k
    {
      assert i < |rs| ==> r.base <= rs[i].base;
      assert k < |rs| ==> r.base < rs[k].base;
    }

    /** Free part of a region. What the engine's test and the region's counter accept is taken off; a region all of
        whose bytes are gone is erased. */
    method Free(p: nat, size: nat) returns (ret: int, taken: bool, ghost i: nat)
      requires Valid() && p < WORD64 && size < WORD64
      modifies this
      ensures Valid()
      ensures ret == if p % PAGE != 0 then -1 else 0
      ensures taken ==> i < |old(regions)| && TakenOff(old(regions), regions, i, p, size)
      ensures taken ==>
                var r := old(regions)[i];
                && r.base in old(freed) && freed == old(freed)[r.base := old(freed)[r.base] + [Range(p, size)]]
                && r.committed - size + Total(freed[r.base]) == r.initial
      ensures !taken ==> regions == old(regions)
      ensures p + size < WORD64 && size > 0 ==>
                (taken <==> p % PAGE == 0 && exists j ::
                              0 <= j < |old(regions)| && old(regions)[j].Within(p, size)
                                && old(regions)[j].committed >= size)
      ensures p + size >= WORD64 || size == 0 ==>
                (taken <==> p % PAGE == 0 && exists j: nat ::
                              && Nearest(old(regions), p, j) && old(regions)[j].committed >= size
                              && (old(regions)[j].Within(p, size) || old(regions)[j].WrapsInto(p, size)))
    {
      hide Ordered, AllCounted, EraseAt;
      ret, taken, i := 0, false, 0;
      if p % PAGE != 0 {
        return FAILED, taken, i;
      }
      if regions == [] {
        return;
      }
      var k := Lookup(p);
      NearestDecides(regions, p, size, k);
      RegionEnd(regions, k);
      CountedAt(regions, freed, k);
      TestAccepts(regions[k], p, size);
      forall j: nat | Nearest(regions, p, j)
        ensures j == k
      {
        NearestIsOne(regions, p, k, j);
      }
      i := k;
      var r := regions[k];
      if r.Accepts(p, size) && r.committed >= size {
        taken := true;
        ghost var was := regions;
        regions := if r.committed == size then EraseAt(regions, k)
                   else regions[k := r.(committed := r.committed - size)];
        TakenOffKeeps(was, regions, k, p, size, freed);
        TotalMore(freed[r.base], Range(p, size));
        freed := freed[r.base := freed[r.base] + [Range(p, size)]];
      }
    }

    static lemma CountedAt(rs: seq<Region>, freed: map<nat, seq<Range>>, i: nat)
      requires AllCounted(rs, freed) && i < |rs|
      ensures Counted(rs[i], freed)
    {
    }

    static lemma RegionEnd(rs: seq<Region>, i: nat)
      requires Ordered(rs) && i < |rs|
      ensures rs[i].End() < WORD64
    {
    }
  }

  /** Two pages, allocated. */
  method TwoPages() returns (m: MemoryManager)
    ensures fresh(m) && m.Valid() && m.regions == [Region(PAGE, 2 * PAGE, 2 * PAGE)]
  {
    m := new MemoryManager();
    assert Rounded(2 * PAGE) == 2 * PAGE;
    hide Rounded;
    assert Room(m.regions, Region(PAGE, Rounded(2 * PAGE), Rounded(2 * PAGE)), 0);
    var at, i := m.Alloc(2 * PAGE, PAGE);
  }

  lemma OnePageOnly()
    ensures var fs := [Range(PAGE, PAGE), Range(PAGE, PAGE)]; Total(fs) == 2 * PAGE && 2 * PAGE !in Spans(fs)
  {
    hide Span, Spans, Total;
    var f := Range(PAGE, PAGE);
    Nothing();
    assert [] + [f] == [f] && [f] + [f] == [f, f];
    TotalMore([], f);
    TotalMore([f], f);
    SpansMore([], f);
    SpansMore([f], f);
  }

  lemma Nothing()
    ensures Total([]) == 0 && Spans([]) == {}
  {
  }

  lemma SpansMore(fs: seq<Range>, f: Range)
    ensures Spans(fs + [f]) == Spans(fs) + Span(f)
  {
    assert (fs + [f])[..|fs|] == fs;
  }

  /** The first page freed twice: the region is erased, although its second page was never freed. */
  method FreedTwice() returns (before: int, after: int, ghost fs: seq<Range>)
    ensures fs == [Range(PAGE, PAGE), Range(PAGE, PAGE)] && Total(fs) == 2 * PAGE && 2 * PAGE !in Spans(fs)
    ensures before == 2 * PAGE && after == -1
  {
    hide Ordered, AllCounted, EraseAt, Total, Span, Spans;
    var m := TwoPages();
    var ret: int, taken: bool;
    ghost var i: nat;
    assert m.regions[0].Within(2 * PAGE, 1) && m.regions[0].Within(PAGE, PAGE);
    before := m.Check(1, 2 * PAGE);
    ret, taken, i := m.Free(PAGE, PAGE);
    assert m.regions == [Region(PAGE, 2 * PAGE, PAGE)];
    assert m.regions[0].Within(PAGE, PAGE);
    ret, taken, i := m.Free(PAGE, PAGE);
    assert |m.regions| == 0;
    after := m.Check(1, 2 * PAGE);
    fs := [Range(PAGE, PAGE), Range(PAGE, PAGE)];
    OnePageOnly();
  }
}
