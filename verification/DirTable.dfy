/** A directory table over a mounted volume: a row of 32-byte entries in the fixed root area or in a
    cluster chain, read and written through the window. */
module DirTables {
  import opened Bytes
  import opened VolumeGeometry
  import opened FatEntries
  import opened Chains
  import opened Volumes
  import opened FileLayout
  import opened FileState
  import opened LongNames

  /** Entries in a sector, and in the longest table. */
  const PER_SECTOR: nat := 16
  const MAX_ENTRIES: nat := 0x1_0000

  /** Where the sectors of a table lie: a cluster chain, or the fixed area when top is 0. */
  datatype Place = Place(g: Geometry, top: nat, base: nat, roots: nat) {
    function SectorOf(chain: seq<nat>, k: nat): nat {
      if top == 0 then base + k else SectorAt(g, chain, k)
    }

    function Sectors(chain: seq<nat>): nat {
      if top == 0 then roots / PER_SECTOR else g.csize * |chain|
    }

    ghost predicate Ok() {
      && g.Wf()
      && (top == 0 ==>
            && roots > 0 && roots % PER_SECTOR == 0
            && g.fatbase + (if g.nFats == 2 then 2 * g.fsize else g.fsize) <= base
              && base + roots / PER_SECTOR <= g.database)
    }
  }

  /** Nothing frozen lies in the FAT, in clusters the table may use, or in its fixed area. */
  ghost predicate Isolated(st: Setting, p: Place) {
    && st.g == p.g && |st.frozenFat| == st.g.nFatent
    && (forall c :: c in st.own ==> st.g.ValidCluster(c))
    && (forall s :: s in st.frozen ==>
          && s < st.g.total && !st.g.InFat(s) && (forall c :: c in st.own ==> !InCluster(st.g, c, s))
          && (p.top == 0 ==> !(p.base <= s < p.base + p.roots / PER_SECTOR)))
  }

  /** table is what the view holds in the table's sectors. */
  ghost predicate Holds(p: Place, chain: seq<nat>, table: seq<Sector>, view: seq<Sector>) {
    && |table| == p.Sectors(chain)
    && forall k :: 0 <= k < |table| ==> table[k] == At(view, p.SectorOf(chain, k))
  }

  /** Entry i of a table. */
  function EntryAt(table: seq<Sector>, i: nat): Entry
    requires i < PER_SECTOR * |table|
  {
    table[i / PER_SECTOR][i % PER_SECTOR * 32..i % PER_SECTOR * 32 + 32]
  }

  function WithEntry(b: Sector, o: nat, e: Entry): Sector
    requires o < PER_SECTOR
  {
    b[..o * 32] + e + b[o * 32 + 32..]
  }

  /** Storing entry i changes that entry only. */
  lemma StoredAlone(table: seq<Sector>, i: nat, e: Entry, j: nat)
    requires i < PER_SECTOR * |table| && j < PER_SECTOR * |table|
    ensures var t := table[i / PER_SECTOR := WithEntry(table[i / PER_SECTOR], i % PER_SECTOR, e)];
            EntryAt(t, j) == if j == i then e else EntryAt(table, j)
  {
    if i / PER_SECTOR == j / PER_SECTOR {
      assert i == j <==> i % PER_SECTOR == j % PER_SECTOR;
      StoredAside(table[i / PER_SECTOR], i % PER_SECTOR, e, j % PER_SECTOR);
    }
  }

  lemma StoredAside(b: Sector, o: nat, e: Entry, p: nat)
    requires o < PER_SECTOR && p < PER_SECTOR
    ensures WithEntry(b, o, e)[p * 32..p * 32 + 32] == if p == o then e else b[p * 32..p * 32 + 32]
  {
    var w := WithEntry(b, o, e);
    forall k | 0 <= k < 32
      ensures w[p * 32 + k] == if p == o then e[k] else b[p * 32 + k]
    {
    }
  }

  lemma AllStoredAlone(table: seq<Sector>, i: nat, e: Entry)
    requires i < PER_SECTOR * |table|
    ensures i / PER_SECTOR < |table|
    ensures var t := table[i / PER_SECTOR := WithEntry(table[i / PER_SECTOR], i % PER_SECTOR, e)];
            forall j :: 0 <= j < PER_SECTOR * |table| ==> EntryAt(t, j) == if j == i then e else EntryAt(table, j)
  {
    forall j: nat | j < PER_SECTOR * |table|
      ensures var t := table[i / PER_SECTOR := WithEntry(table[i / PER_SECTOR], i % PER_SECTOR, e)];
              EntryAt(t, j) == if j == i then e else EntryAt(table, j)
    {
      StoredAlone(table, i, e, j);
    }
  }

  // ---- Where the table lies --------------------------------------------------------------------

  lemma ChainSector(g: Geometry, chain: seq<nat>, k: nat)
    requires g.csize > 0 && k < g.csize * |chain|
    ensures Has(g, chain, k)
  {
    if k / g.csize >= |chain| {
      MulMono(|chain|, k / g.csize, g.csize);
    }
  }

  /** Every sector of the table is a checked one outside the FAT and inside the drive. */
  lemma TableSector(st: Setting, p: Place, fat: seq<nat>, chain: seq<nat>, k: nat)
    requires p.Ok() && st.g == p.g && HeapOk(st, fat, chain, p.top) && k < p.Sectors(chain)
    ensures var s := p.SectorOf(chain, k);
            && 0 < s < p.g.total && !p.g.InFat(s) && !p.g.Unchecked(s)
            && (p.top == 0 ==> s < p.g.database)
            && (p.top != 0 ==>
              Has(p.g, chain, k) && chain[k / p.g.csize] in st.own && InCluster(p.g, chain[k / p.g.csize], s))
  {
    if p.top != 0 {
      hide HeapOk;
      OwnChain(st, fat, chain, p.top);
      ChainSector(p.g, chain, k);
      SectorAtIn(p.g, chain, k);
    }
  }

  lemma TableInjective(st: Setting, p: Place, fat: seq<nat>, chain: seq<nat>, j: nat, k: nat)
    requires p.Ok() && st.g == p.g && HeapOk(st, fat, chain, p.top) && j < p.Sectors(chain) && k < p.Sectors(chain)
             && j != k
    ensures p.SectorOf(chain, j) != p.SectorOf(chain, k)
  {
    if p.top != 0 {
      hide HeapOk, SectorAt;
      OwnChain(st, fat, chain, p.top);
      ChainSector(p.g, chain, j);
      ChainSector(p.g, chain, k);
      if SectorAt(p.g, chain, j) == SectorAt(p.g, chain, k) {
        SectorAtInjective(p.g, chain, j, k);
      }
    }
  }

  /** Rewriting one sector of the table. */
  lemma HoldsWrite(st: Setting, p: Place, fat: seq<nat>, chain: seq<nat>, table: seq<Sector>, view: seq<Sector>,
                   k: nat, d: Sector)
    requires p.Ok() && st.g == p.g && HeapOk(st, fat, chain, p.top) && Holds(p, chain, table, view) && k < |table|
    requires |view| == p.g.total
    ensures p.SectorOf(chain, k) < |view| && Holds(p, chain, table[k := d], view[p.SectorOf(chain, k) := d])
  {
    hide HeapOk;
    TableSector(st, p, fat, chain, k);
    var view' := view[p.SectorOf(chain, k) := d];
    forall j | 0 <= j < |table|
      ensures table[k := d][j] == At(view', p.SectorOf(chain, j))
    {
      if j != k {
        TableInjective(st, p, fat, chain, j, k);
      }
    }
  }

  lemma FrozenWrite(st: Setting, p: Place, fat: seq<nat>, chain: seq<nat>, view: seq<Sector>, k: nat, d: Sector)
    requires p.Ok() && Isolated(st, p) && HeapOk(st, fat, chain, p.top) && ViewOk(st, view) && k < p.Sectors(chain)
    ensures p.SectorOf(chain, k) < |view| && ViewOk(st, view[p.SectorOf(chain, k) := d])
  {
    hide HeapOk;
    TableSector(st, p, fat, chain, k);
  }

  /** Changes to the FAT alone leave the table and the frozen part as they were. */
  lemma FatOnly(st: Setting, p: Place, fat: seq<nat>, chain: seq<nat>, table: seq<Sector>, view: seq<Sector>,
                view': seq<Sector>, t: Table)
    requires p.Ok() && Isolated(st, p) && HeapOk(st, fat, chain, p.top) && Holds(p, chain, table, view)
             && ViewOk(st, view)
    requires t.base == p.g.fatbase && t.size == p.g.fsize && SameOutsideFat(t, view, view')
    ensures Holds(p, chain, table, view') && ViewOk(st, view')
  {
    hide HeapOk;
    forall k | 0 <= k < |table|
      ensures At(view', p.SectorOf(chain, k)) == At(view, p.SectorOf(chain, k))
    {
      TableSector(st, p, fat, chain, k);
    }
  }

  /** Stretched by a cleared cluster, the table has that many more zero sectors. */
  lemma HoldsGrown(st: Setting, p: Place, fat: seq<nat>, chain: seq<nat>, table: seq<Sector>, view: seq<Sector>,
                   view': seq<Sector>, r: nat, fat': seq<nat>)
    requires p.Ok() && Isolated(st, p) && HeapOk(st, fat, chain, p.top) && HeapOk(st, fat', chain + [r], p.top)
             && p.top != 0
    requires Holds(p, chain, table, view) && ViewOk(st, view) && |view| == p.g.total
    requires SameOutside(view, view', p.g.FirstSector(r), p.g.csize) && r >= 2
    requires ZeroRun(view', p.g.FirstSector(r), p.g.csize)
    ensures Holds(p, chain + [r], table + seq(p.g.csize, _ => ZeroSector()), view') && ViewOk(st, view')
  {
    hide HeapOk;
    var longer := chain + [r];
    OwnChain(st, fat', longer, p.top);
    assert longer[|chain|] == r;
    ClusterInData(p.g, r);
    forall k | 0 <= k < p.Sectors(longer)
      ensures (table + seq(p.g.csize, _ => ZeroSector()))[k] == At(view', p.SectorOf(longer, k))
    {
      GrownSector(st, p, fat, chain, fat', view, view', table, r, k);
    }
    forall s | s in st.frozen
      ensures view'[s] == view[s]
    {
      assert !InCluster(p.g, r, s);
    }
  }

  lemma GrownSector(st: Setting, p: Place, fat: seq<nat>, chain: seq<nat>, fat': seq<nat>, view: seq<Sector>,
                    view': seq<Sector>, table: seq<Sector>, r: nat, k: nat)
    requires p.Ok() && st.g == p.g && HeapOk(st, fat, chain, p.top) && HeapOk(st, fat', chain + [r], p.top)
             && p.top != 0
    requires Holds(p, chain, table, view) && |view| == p.g.total && r >= 2 && k < p.Sectors(chain + [r])
    requires SameOutside(view, view', p.g.FirstSector(r), p.g.csize)
    requires ZeroRun(view', p.g.FirstSector(r), p.g.csize)
    ensures At(view', p.SectorOf(chain + [r], k)) == if k < |table| then table[k] else ZeroSector()
  {
    hide HeapOk;
    var longer := chain + [r];
    OwnChain(st, fat', longer, p.top);
    if k < |table| {
      OldSector(st, p, fat, chain, longer, k, r);
    } else {
      NewSector(p.g, chain, longer, k, r);
    }
  }

  lemma OldSector(st: Setting, p: Place, fat: seq<nat>, chain: seq<nat>, longer: seq<nat>, k: nat, r: nat)
    requires p.Ok() && st.g == p.g && HeapOk(st, fat, chain, p.top) && p.top != 0 && k < p.Sectors(chain)
    requires longer == chain + [r] && ClustersOk(p.g, longer) && Distinct(longer)
    ensures p.SectorOf(longer, k) == p.SectorOf(chain, k) < p.g.total && !InCluster(p.g, r, p.SectorOf(chain, k))
  {
    hide HeapOk, SectorAt, Geometry.Wf, Geometry.FirstSector, Isolated;
    var s := p.SectorOf(chain, k);
    TableSector(st, p, fat, chain, k);
    CsizeOk(p);
    SectorAtGrown(p.g, chain, longer, k);
    assert longer[|chain|] == r;
    if InCluster(p.g, r, s) {
      ClustersApart(p.g, r, longer[k / p.g.csize], s);
    }
  }

  lemma CsizeOk(p: Place)
    requires p.Ok()
    ensures p.g.csize > 0
  {
  }

  lemma NewSector(g: Geometry, chain: seq<nat>, longer: seq<nat>, k: nat, r: nat)
    requires g.csize > 0 && longer == chain + [r] && r >= 2 && g.csize * |chain| <= k < g.csize * |longer|
    ensures g.FirstSector(r) <= SectorAt(g, longer, k) < g.FirstSector(r) + g.csize
  {
    hide Geometry.FirstSector;
    DivIs(k, |chain|, g.csize);
  }

  /** A cluster linked to the end of the table's chain. */
  lemma GrowFat(st: Setting, p: Place, fat: seq<nat>, chain: seq<nat>, table: seq<Sector>, view: seq<Sector>,
                view': seq<Sector>, t: Table, r: nat, eoc: nat)
    requires p.Ok() && Isolated(st, p) && HeapOk(st, fat, chain, p.top) && Holds(p, chain, table, view)
             && ViewOk(st, view)
    requires t.base == p.g.fatbase && t.size == p.g.fsize && SameOutsideFat(t, view, view')
    requires chain != [] && r in FreeSet(fat) && eoc >= |fat|
    ensures Holds(p, chain, table, view') && ViewOk(st, view') && p.g.ValidCluster(r)
    ensures HeapOk(st, Linked(fat, chain[|chain| - 1], r, eoc), chain + [r], p.top)
  {
    FatOnly(st, p, fat, chain, table, view, view', t);
    hide Holds, Linked;
    HeapGrow(st, fat, chain, p.top, r, eoc);
  }

  /** The number after k - 1, in rows of m. */
  lemma NextInRow(k: nat, m: nat, n: nat)
    requires m > 0 && 0 < k <= m * n
    ensures (k - 1) / m < n
    ensures k % m == 0 ==> (k - 1) / m + 1 == k / m && (k / m == n <==> k == m * n)
    ensures k % m != 0 ==> k / m == (k - 1) / m && k < m * n
  {
    var q := k / m;
    assert k == m * q + k % m;
    DivIs(m * n, n, m);
    DivMono(k, m * n, m);
    if k % m == 0 {
      MulMono(1, q, m);
      DivIs(k - 1, q - 1, m);
    } else {
      DivIs(k - 1, q, m);
    }
  }

  /** The sector after sector k - 1 of a table. */
  lemma NextSectorPlace(g: Geometry, chain: seq<nat>, k: nat)
    requires g.csize > 0 && 0 < k <= g.csize * |chain|
    ensures Has(g, chain, k - 1)
    ensures if k % g.csize == 0 then
              (k - 1) / g.csize + 1 == k / g.csize && (k / g.csize == |chain| <==> k == g.csize * |chain|)
            else k / g.csize == (k - 1) / g.csize && k < g.csize * |chain|
    ensures k % g.csize != 0 && ClustersOk(g, chain) ==> SectorAt(g, chain, k) == SectorAt(g, chain, k - 1) + 1
  {
    NextInRow(k, g.csize, |chain|);
    if k % g.csize != 0 && ClustersOk(g, chain) {
      SameRow(k, g.csize);
    }
  }

  lemma SameRow(k: nat, m: nat)
    requires m > 0 && k % m != 0
    ensures k > 0 && (k - 1) / m == k / m && (k - 1) % m == k % m - 1
  {
    assert k == m * (k / m) + k % m;
    DivIs(k - 1, k / m, m);
  }

  /** Entry i of n sectors, and the one after it. */
  lemma NextIndex(i: nat, n: nat)
    requires i < PER_SECTOR * n
    ensures i / PER_SECTOR < n
    ensures if (i + 1) % PER_SECTOR != 0 then
              i + 1 < PER_SECTOR * n && (i + 1) / PER_SECTOR == i / PER_SECTOR && (32 * (i + 1)) % 512 != 0
            else
              && (i + 1) / PER_SECTOR == i / PER_SECTOR + 1
              && (32 * (i + 1)) % 512 == 0 && 32 * (i + 1) / 512 == (i + 1) / PER_SECTOR
  {
  }

  lemma BelowChain(k: nat, m: nat, n: nat)
    requires m > 0 && k / m < n
    ensures k < m * n
  {
    MulMono(k / m + 1, n, m);
  }

  // ---- The directory object --------------------------------------------------------------------

  /** The volume holds this table, and beside it only what is frozen. */
  ghost predicate TableOn(fs: Volume, st: Setting, p: Place, chain: seq<nat>, table: seq<Sector>)
    reads fs
  {
    && fs.Valid() && p.g == fs.g == st.g && p.Ok() && Isolated(st, p)
    && HeapOk(st, fs.Fat(), chain, p.top)
    && ViewOk(st, fs.view) && CountExact(fs.Fat(), fs.freeClst) && NoOnes(fs.Fat())
    && Holds(p, chain, table, fs.view) && |table| > 0
  }

  class Dir {
    const fs: Volume
    /** Start cluster of the table; 0 for the fixed root area. */
    const top: nat
    const base: nat
    const roots: nat
    var dptr: nat
    var clust: nat
    var sect: nat
    ghost const st: Setting
    ghost var chain: seq<nat>
    ghost var table: seq<Sector>

    function Where(): Place {
      Place(fs.g, top, base, roots)
    }

    ghost predicate Valid()
      reads `chain, `table, fs
    {
      TableOn(fs, st, Where(), chain, table)
    }

    constructor (fs: Volume, top: nat, base: nat, roots: nat, ghost st: Setting, ghost chain: seq<nat>,
                 ghost table: seq<Sector>)
      requires TableOn(fs, st, Place(fs.g, top, base, roots), chain, table)
      ensures Valid() && this.fs == fs && this.top == top && this.base == base && this.roots == roots
      ensures this.st == st && this.chain == chain && this.table == table
    {
      this.fs, this.top, this.base, this.roots := fs, top, base, roots;
      this.st, this.chain, this.table := st, chain, table;
      dptr, clust, sect := 0, 0, 0;
    }

    ghost function Length(): nat
      reads `table
    {
      PER_SECTOR * |table|
    }

    /** The cursor is at entry i. */
    ghost predicate AtEntry(i: nat)
      reads this
    {
      && i < Length() && |table| == Where().Sectors(chain) && dptr == 32 * i
      && sect == Where().SectorOf(chain, i / PER_SECTOR)
      && if top == 0 then clust == 0
         else Has(fs.g, chain, i / PER_SECTOR) && clust == chain[i / PER_SECTOR / fs.g.csize]
    }

    lemma NotEmpty()
      requires Valid()
      ensures Length() >= PER_SECTOR
    {
    }

    lemma TopCluster()
      requires Valid() && top != 0
      ensures chain != [] && chain[0] == top && fs.g.ValidCluster(top) && |table| == fs.g.csize * |chain|
              && fs.g.csize > 0
      ensures fs.g.nFatent < 0x1000_0000
    {
      hide Isolated, ViewOk, CountExact, NoOnes, FatOf, Tracks, Mirrors;
      OwnChain(st, fs.Fat(), chain, top);
    }

    /** The entry of cluster j of the chain. */
    lemma Link(j: nat)
      requires Valid() && j < |chain|
      ensures fs.g.ValidCluster(chain[j]) && |fs.Fat()| == fs.g.nFatent
      ensures j + 1 < |chain| ==> fs.Fat()[chain[j]] == chain[j + 1] && fs.g.ValidCluster(chain[j + 1])
      ensures j + 1 == |chain| ==> fs.Fat()[chain[j]] >= fs.g.nFatent
    {
      hide Isolated, ViewOk, CountExact, NoOnes, FatOf, Tracks, Mirrors;
      if j + 1 < |chain| {
        LinkInside(st, fs.Fat(), chain, top, j);
      } else {
        LastEnds(st, fs.Fat(), chain, top);
      }
    }

    /** Follow the chain to the cluster that holds byte 32 * i of the table. */
    method FollowTable(i: nat) returns (res: FResult, clst: nat, ofs: nat, ghost j: nat)
      requires Valid() && top != 0
      modifies fs`disk, fs`wflag, fs`missed, fs`win, fs`winsect
      ensures Valid() && fs.view == old(fs.view)
      ensures res == FrOk ==>
              j < |chain| && clst == chain[j] && 32 * i == ClusterBytes(fs.g) * j + ofs && ofs < ClusterBytes(fs.g)
      ensures res == FrIntErr ==> i >= Length()
      ensures res == FrOk || res == FrIntErr || res == FrDiskErr
      ensures fs.reliable ==> res != FrDiskErr
    {
      hide Isolated, HeapOk, ViewOk, CountExact, NoOnes, Holds, FatOf, Tracks, Mirrors, Geometry.Wf;
      TopCluster();
      clst, ofs, j := top, 32 * i, 0;
      while ofs >= ClusterBytes(fs.g)
        invariant Valid() && fs.view == old(fs.view) && fs.g.csize > 0
        invariant j < |chain| && clst == chain[j] && 32 * i == ClusterBytes(fs.g) * j + ofs
        decreases ofs
      {
        Link(j);
        clst := fs.GetFat(clst);
        if clst == DISK_ERROR {
          return FrDiskErr, clst, ofs, j;
        }
        if clst < 2 || clst >= fs.g.nFatent {
          PastEnd(i, j, ofs);
          return FrIntErr, clst, ofs, j;
        }
        ofs, j := ofs - ClusterBytes(fs.g), j + 1;
      }
      res := FrOk;
    }

    lemma PastEnd(i: nat, j: nat, ofs: nat)
      requires Valid() && top != 0 && j + 1 == |chain| && 32 * i == ClusterBytes(fs.g) * j + ofs
               && ofs >= ClusterBytes(fs.g)
      ensures i >= Length()
    {
      hide Isolated, HeapOk, ViewOk, CountExact, NoOnes, FatOf, Tracks, Mirrors, Geometry.Wf, Volume.Valid;
      TopCluster();
      assert ClusterBytes(fs.g) * (j + 1) == 512 * (fs.g.csize * (j + 1));
    }

    /** Byte ofs of cluster j is entry i. */
    lemma EntryHere(i: nat, j: nat, ofs: nat)
      requires Valid() && top != 0 && j < |chain| && 32 * i == ClusterBytes(fs.g) * j + ofs && ofs < ClusterBytes(fs.g)
      ensures i < Length() && Has(fs.g, chain, i / PER_SECTOR) && i / PER_SECTOR / fs.g.csize == j
      ensures SectorAt(fs.g, chain, i / PER_SECTOR) == fs.ClusterToSector(chain[j]) + ofs / 512
    {
      hide Isolated, HeapOk, ViewOk, CountExact, NoOnes, FatOf, Tracks, Mirrors, Geometry.Wf, Volume.Valid;
      TopCluster();
      Link(j);
      SectorInCluster(fs.g, j, ofs);
      assert 32 * i / 512 == i / PER_SECTOR;
      MulMono(j + 1, |chain|, fs.g.csize);
      assert i / PER_SECTOR < fs.g.csize * (j + 1) by {
        assert i / PER_SECTOR == fs.g.csize * j + ofs / 512;
      }
    }

    /** Go to entry i. */
    method Sdi(i: nat) returns (res: FResult)
      requires Valid()
      modifies `dptr, `clust, `sect, fs`disk, fs`wflag, fs`missed, fs`win, fs`winsect
      ensures Valid() && fs.view == old(fs.view)
      ensures res == FrOk ==> i < Length() && i < MAX_ENTRIES && AtEntry(i)
      ensures res == FrIntErr ==> i >= Length() || i >= MAX_ENTRIES
      ensures res == FrOk || res == FrIntErr || res == FrDiskErr
      ensures fs.reliable ==> res != FrDiskErr
    {
      hide Isolated, HeapOk, ViewOk, CountExact, NoOnes, FatOf, Tracks, Mirrors, Geometry.Wf;
      var ofs := 32 * i;
      if ofs >= 32 * MAX_ENTRIES {
        return FrIntErr;
      }
      dptr := ofs;
      if top == 0 {
        if i >= roots {
          return FrIntErr;
        }
        clust := 0;
        sect := base;
      } else {
        var clst: nat;
        ghost var j: nat;
        res, clst, ofs, j := FollowTable(i);
        if res != FrOk {
          return;
        }
        EntryHere(i, j, ofs);
        Link(j);
        sect := fs.ClusterToSector(clst);
        clust := clst;
      }
      sect := sect + ofs / 512;
      res := FrOk;
    }

    /** Add a cleared cluster to the table and move to it. */
    method StretchTable(ghost j: nat) returns (res: FResult)
      requires Valid() && top != 0 && j + 1 == |chain| && clust == chain[j]
      modifies `clust, `chain, `table, fs
      ensures res == FrOk ==>
              Valid() && chain == old(chain) + [clust] && table == old(table) + seq(fs.g.csize, _ => ZeroSector())
      ensures res == FrDenied ==> Valid() && chain == old(chain) && table == old(table) && FreeSet(fs.Fat()) == {}
      ensures res == FrOk || res == FrDenied || res == FrDiskErr
      ensures fs.reliable ==> res != FrDiskErr
    {
      hide Isolated, HeapOk, ViewOk, CountExact, NoOnes, FatOf, Tracks, Mirrors, Geometry.Wf, Geometry.FirstSector;
      hide FreeSet, Holds, Place.Ok, Linked, SameOutside, SameOutsideFat, Preferred, Geometry.Layout;
      ghost var fat, view := fs.Fat(), fs.view;
      WfHere();
      Link(j);
      var clst := fs.CreateChain(clust);
      if clst == DISK_ERROR {
        return FrDiskErr;
      }
      if clst == 0 {
        FatOnly(st, Where(), fat, chain, table, view, fs.view, fs.FatTable());
        return FrDenied;
      }
      GrowFat(st, Where(), fat, chain, table, view, fs.view, fs.FatTable(), clst, fs.EndMark());
      view := fs.view;
      var ok := fs.ClearCluster(clst);
      if !ok {
        return FrDiskErr;
      }
      HoldsGrown(st, Where(), fat, chain, table, view, fs.view, clst, fs.Fat());
      chain := chain + [clst];
      table := table + seq(fs.g.csize, _ => ZeroSector());
      clust := clst;
      res := FrOk;
    }

    lemma WfHere()
      requires Valid()
      ensures fs.g.Wf() && fs.g.Layout() && st.g == fs.g && |fs.view| == fs.g.total
    {
    }

    /** Move on from cluster j of the table, stretching it at its end if asked to. */
    method NextCluster(stretch: bool, ghost j: nat) returns (res: FResult)
      requires Valid() && top != 0 && j < |chain| && clust == chain[j]
      modifies `clust, `sect, `chain, `table, fs
      ensures res == FrOk ==> Valid() && j + 1 < |chain| && clust == chain[j + 1] && sect == old(sect)
      ensures res == FrOk && j + 1 < |old(chain)| ==> chain == old(chain) && table == old(table)
      ensures res == FrOk && j + 1 == |old(chain)| ==>
                stretch && chain == old(chain) + [clust] && table == old(table) + seq(fs.g.csize, _ => ZeroSector())
      ensures res == FrNoFile ==>
                Valid() && chain == old(chain) && table == old(table) && j + 1 == |chain| && !stretch && sect == 0
      ensures res == FrDenied ==>
              Valid() && chain == old(chain) && table == old(table) && j + 1 == |chain| && stretch
              && FreeSet(fs.Fat()) == {}
      ensures res == FrOk || res == FrNoFile || res == FrDenied || res == FrDiskErr
      ensures fs.reliable ==> res != FrDiskErr
    {
      hide Isolated, HeapOk, ViewOk, CountExact, NoOnes, FatOf, Tracks, Mirrors, Geometry.Wf, FreeSet, Holds, Place.Ok;
      Link(j);
      TopCluster();
      var clst := fs.GetFat(clust);
      assert clst > 1;  // the engine's internal-error exit is never taken
      if clst == DISK_ERROR {
        return FrDiskErr;
      }
      if clst >= fs.g.nFatent {
        if !stretch {
          sect := 0;
          return FrNoFile;
        }
        res := StretchTable(j);
        return;
      }
      clust := clst;
      res := FrOk;
    }

    /** What the cursor's position says about where it is. */
    ghost predicate Located(i: nat)
      reads this
    {
      && fs.g.csize > 0 && sect != 0 && i / PER_SECTOR < |table|
      && if top == 0 then clust == 0 && Length() == roots && sect == base + i / PER_SECTOR
         else
           && clust != 0 && Has(fs.g, chain, i / PER_SECTOR) && clust == chain[i / PER_SECTOR / fs.g.csize]
             && ClustersOk(fs.g, chain)
           && sect == SectorAt(fs.g, chain, i / PER_SECTOR) && |table| == fs.g.csize * |chain|
    }

    lemma Here(i: nat)
      requires Valid() && AtEntry(i)
      ensures Located(i)
    {
      hide Isolated, HeapOk, ViewOk, CountExact, NoOnes, FatOf, Tracks, Mirrors, Geometry.Layout, SectorAt, Chain,
           Distinct;
      OwnChain(st, fs.Fat(), chain, top);
      NextIndex(i, |table|);
      TableSector(st, Where(), fs.Fat(), chain, i / PER_SECTOR);
    }

    /** Move on to the next entry; stretch asks for a longer table at its end. */
    method Next(stretch: bool, ghost i: nat) returns (res: FResult)
      requires Valid() && AtEntry(i)
      modifies this`dptr, this`clust, this`sect, this`chain, this`table, fs
      ensures res == FrOk ==> Valid() && i + 1 < MAX_ENTRIES && i + 1 < Length() && AtEntry(i + 1)
      ensures res == FrOk && i + 1 < old(Length()) ==> table == old(table)
      ensures res == FrOk && i + 1 >= old(Length()) ==>
              stretch && table == old(table) + seq(fs.g.csize, _ => ZeroSector())
      ensures res == FrNoFile ==>
              && Valid() && table == old(table)
              && (i + 1 >= MAX_ENTRIES || (i + 1 == Length() && (!stretch || top == 0)))
              && sect == 0
      ensures res == FrDenied ==>
              Valid() && table == old(table) && i + 1 == Length() && stretch && FreeSet(fs.Fat()) == {}
      ensures res == FrOk || res == FrNoFile || res == FrDenied || res == FrDiskErr
      ensures fs.reliable ==> res != FrDiskErr
    {
      hide Isolated, HeapOk, ViewOk, CountExact, NoOnes, FatOf, Tracks, Mirrors, Geometry.Wf, FreeSet, TableOn,
           SectorAt, ClustersOk;
      Here(i);
      NextIndex(i, |table|);
      var ofs := dptr + 32;
      if ofs >= 32 * MAX_ENTRIES {
        sect := 0;
      }
      if sect == 0 {
        return FrNoFile;
      }
      ghost var k := (i + 1) / PER_SECTOR;
      if ofs % 512 == 0 {
        sect := sect + 1;
        if clust == 0 {
          if ofs / 32 >= roots {
            sect := 0;
            return FrNoFile;
          }
        } else {
          NextSectorPlace(fs.g, chain, k);
          if ofs / 512 % fs.g.csize == 0 {
            res := NextCluster(stretch, i / PER_SECTOR / fs.g.csize);
            if res != FrOk {
              return;
            }
            sect := fs.ClusterToSector(clust);
            Arrived(k);
          }
        }
      }
      dptr := ofs;
      res := FrOk;
    }

    /** At the start of a cluster. */
    lemma Arrived(k: nat)
      requires Valid() && top != 0 && fs.g.csize > 0 && k % fs.g.csize == 0 && k / fs.g.csize < |chain|
      ensures k < |table| == fs.g.csize * |chain| && Has(fs.g, chain, k)
              && SectorAt(fs.g, chain, k) == fs.ClusterToSector(chain[k / fs.g.csize])
    {
      hide Isolated, HeapOk, ViewOk, CountExact, NoOnes, Holds, FatOf, Tracks, Mirrors, Geometry.Wf,
           Geometry.FirstSector, Volume.Valid;
      Link(k / fs.g.csize);
      TopCluster();
      BelowChain(k, fs.g.csize, |chain|);
    }

    /** Bring the entry under the cursor into the window. */
    method Load(ghost i: nat) returns (res: FResult, e: Entry)
      requires Valid() && AtEntry(i)
      modifies fs`disk, fs`wflag, fs`missed, fs`win, fs`winsect
      ensures Valid() && (res == FrOk || res == FrDiskErr)
      ensures res == FrOk ==> e == EntryAt(table, i) && fs.winsect == sect && fs.win == table[i / PER_SECTOR]
      ensures fs.reliable ==> res == FrOk
    {
      hide HeapOk, ViewOk, CountExact, NoOnes, FatOf, Tracks, Mirrors, Geometry.Wf, Isolated;
      NextIndex(i, |table|);
      TableSector(st, Where(), fs.Fat(), chain, i / PER_SECTOR);
      res := fs.MoveWindow(sect);
      Offset(i);
      e := fs.win[dptr % 512..dptr % 512 + 32];
    }

    lemma Offset(i: nat)
      requires dptr == 32 * i
      ensures dptr % 512 == i % PER_SECTOR * 32 && dptr % 512 + 32 <= 512
    {
    }

    /** Change the entry under the cursor, which the window holds. */
    method Store(e: Entry, ghost i: nat)
      requires Valid() && AtEntry(i) && fs.winsect == sect && fs.win == table[i / PER_SECTOR]
      modifies `table, fs`win, fs`wflag, fs`view
      ensures Valid() && AtEntry(i) && |table| == |old(table)| && EntryAt(table, i) == e
      ensures forall j :: 0 <= j < Length() && j != i ==> EntryAt(table, j) == EntryAt(old(table), j)
    {
      hide HeapOk, ViewOk, CountExact, NoOnes, FatOf, Tracks, Mirrors, Geometry.Wf, Isolated, Holds, EntryAt,
           WithEntry, Place.Ok;
      ghost var view, fat, t, k := fs.view, fs.Fat(), table, i / PER_SECTOR;
      NextIndex(i, |table|);
      TableSector(st, Where(), fat, chain, k);
      Offset(i);
      var d := WithEntry(fs.win, dptr % 512 / 32, e);
      HoldsWrite(st, Where(), fat, chain, table, view, k, d);
      FrozenWrite(st, Where(), fat, chain, view, k, d);
      fs.EditWindow(d);
      FatFrame(fs.FatTable(), view, fs.view);
      table := table[k := d];
      AllStoredAlone(t, i, e);
    }
  }
}
