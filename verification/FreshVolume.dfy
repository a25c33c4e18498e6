/** The root directory of a freshly formatted and mounted volume. */
module FreshVolumes {
  import opened Bytes
  import opened VolumeGeometry
  import opened FatEntries
  import opened Chains
  import opened Volumes
  import opened FileLayout
  import opened FileState
  import opened FormatPlans
  import opened Drives
  import opened Formatting
  import opened LongNames
  import opened DirTables
  import opened Directories
  import opened DirOps
  import Allocation

  ghost function RootChain(g: Geometry): seq<nat> {
    if g.kind.Fat32? then [2] else []
  }

  ghost function EmptySetting(vol: Volume): Setting
    requires vol.Valid()
    reads vol
  {
    Setting(vol.g, Elems(RootChain(vol.g)) + FreeSet(vol.Fat()), 0, 0, vol.Fat(), map[])
  }

  ghost function ZeroTable(n: nat): seq<Sector> {
    seq(n, _ => ZeroSector())
  }

  lemma TableSize(vol: Volume)
    requires vol.Valid()
    ensures |vol.Fat()| <= 0x0FFF_FFFF
  {
  }

  /** The root directory of a fresh FAT32 volume is one cleared cluster. */
  lemma Root32(vol: Volume)
    requires vol.Valid() && vol.g.Wf() && vol.g.kind.Fat32? && vol.g.database == vol.g.fatbase + vol.g.fsize
    requires |vol.Fat()| > 2 && vol.Fat()[2] == 0x0FFF_FFFF
    requires Filled(vol.view, vol.g.database, vol.g.csize, ZeroSector())
             && FreeSet(vol.Fat()) == Clusters(vol.g.nFatent) - {2}
    ensures vol.g.csize > 0 && HeapOk(EmptySetting(vol), vol.Fat(), [2], 2)
    ensures DirTables.Holds(Place(vol.g, 2, 2, 0), [2], ZeroTable(vol.g.csize), vol.view)
  {
    TableSize(vol);
    hide FatOf, Filled, Tracks, Mirrors, SectorAt, Geometry.Layout;
    assert Chain(vol.Fat(), [2]);
    forall k | 0 <= k < vol.g.csize
      ensures FileState.At(vol.view, SectorAt(vol.g, [2], k)) == ZeroSector()
    {
      RootSector(vol.g, vol.view, k);
    }
  }

  lemma RootSector(g: Geometry, view: seq<Sector>, k: nat)
    requires g.csize > 0 && k < g.csize && Filled(view, g.database, g.csize, ZeroSector())
    ensures FileState.At(view, SectorAt(g, [2], k)) == ZeroSector()
  {
    DivIs(k, 0, g.csize);
  }

  /** The chains of a fresh volume: the root directory's on FAT32, none otherwise. */
  ghost function FreshChains(g: Geometry): set<seq<nat>> {
    if g.kind.Fat32? then {[2]} else {}
  }

  /** Allocation starts from a sound state. */
  lemma FreshSpace(vol: Volume)
    requires vol.Valid() && NoOnes(vol.Fat()) && CountExact(vol.Fat(), vol.freeClst) && |vol.Fat()| > 2
             && vol.Fat()[0] != 0 && vol.Fat()[1] != 0
    requires FreeSet(vol.Fat()) == Clusters(|vol.Fat()|) - (if vol.g.kind.Fat32? then {2} else {})
    requires vol.g.kind.Fat32? ==> vol.Fat()[2] == 0x0FFF_FFFF
    ensures Allocation.Sound(Allocation.SpaceOf(vol, FreshChains(vol.g)))
  {
    hide FatOf, Tracks, Mirrors, CountExact, NoOnes, Geometry.Layout, Volume.Valid;
    TableSize(vol);
    var f := vol.Fat();
    if vol.g.kind.Fat32? {
      assert Chain(f, [2]);
    }
    forall c | c in Used(f)
      ensures vol.g.kind.Fat32? && c == 2 && c in [2]
    {
      assert c in Clusters(|f|) && c !in FreeSet(f);
    }
  }

  ghost predicate AllZero(es: seq<Entry>) {
    forall i :: 0 <= i < |es| ==> es[i] == Zeros()
  }

  /** The root directory may grow into all of the volume. */
  lemma RootOwns(vol: Volume)
    requires vol.Valid() && vol.g.nFatent >= MIN_CLUSTERS + 2
    requires FreeSet(vol.Fat()) == Clusters(vol.g.nFatent) - (if vol.g.kind.Fat32? then {2} else {})
    ensures |EmptySetting(vol).own| == vol.g.nFatent - 2
  {
    hide FatOf, Tracks, Mirrors, FreeSet;
    assert EmptySetting(vol).own == Clusters(vol.g.nFatent);
  }

  /** Rows of zero sectors are zero entries, a well-formed empty directory. */
  lemma EmptyRows(n: nat)
    ensures WellFormed(Rows(ZeroTable(n))) && AllZero(Rows(ZeroTable(n)))
    ensures |Rows(ZeroTable(n))| == if PER_SECTOR * n < MAX_ENTRIES then PER_SECTOR * n else MAX_ENTRIES
  {
    var es := Rows(ZeroTable(n));
    forall i | 0 <= i < |es|
      ensures es[i] == Zeros()
    {
    }
  }

  /** Format a drive and open the root directory of its volume: it is there exactly for drives of at least 191
      sectors, and it is empty. */
  method FormatAndOpenRoot(drive: Drive, bufSize: nat) returns (d: Dir?, ghost p: Plan)
    requires |drive.disk| < 0x1_0000_0000 && bufSize > 0 && drive.reliable
    modifies drive
    ensures |drive.disk| == |old(drive.disk)|
    ensures d != null <==> |drive.disk| >= 191
    ensures d != null ==>
              && fresh(d) && fresh(d.fs) && d.Valid() && WellFormed(Rows(d.table))
              && Allocation.Sound(Allocation.SpaceOf(d.fs, FreshChains(d.fs.g)))
              && d.fs.reliable && AllZero(Rows(d.table)) && (d.top == 0 ==> |Rows(d.table)| == ROOT_ENTRIES)
              && Acceptable(p, |drive.disk| - PARTITION) && d.fs.g == GeometryOf(p, |drive.disk| - PARTITION)
              && |d.st.own| == p.clusters >= MIN_CLUSTERS && (d.top == 0 <==> !p.kind.Fat32?)
              && d.chain == RootChain(d.fs.g)
  {
    hide FatOf, Filled, HeapOk, Rows, WellFormed, NoOnes, CountExact, FreeSet, Geometry.Wf, TableOn;
    hide DirTables.Holds, EmptySetting, Place.Ok, ZeroTable, Zeros, Allocation.Sound, AllZero, Geometry.Layout, Tracks,
         Mirrors, Clusters;
    var vol: Volume?;
    vol, p := StartFormatted(drive, bufSize);
    d := null;
    if vol != null {
      FreshSpace(vol);
      RootOwns(vol);
      ghost var st := EmptySetting(vol);
      if vol.g.kind.Fat32? {
        Root32(vol);
        RootOn(vol, Place(vol.g, 2, 2, 0), [2], vol.g.csize);
        EmptyRows(vol.g.csize);
        d := new Dir(vol, 2, 2, 0, st, [2], ZeroTable(vol.g.csize));
      } else {
        RootFixed(vol);
        RootOn(vol, Place(vol.g, 0, vol.g.fatbase + vol.g.fsize, ROOT_ENTRIES), [], ROOT_SECTORS);
        EmptyRows(ROOT_SECTORS);
        d := new Dir(vol, 0, vol.g.fatbase + vol.g.fsize, ROOT_ENTRIES, st, [], ZeroTable(ROOT_SECTORS));
      }
    }
  }

  lemma RootOn(vol: Volume, p: Place, chain: seq<nat>, n: nat)
    requires vol.Valid() && vol.g.Wf() && CountExact(vol.Fat(), vol.freeClst) && NoOnes(vol.Fat()) && n > 0
    requires p.g == vol.g && chain == RootChain(vol.g) && HeapOk(EmptySetting(vol), vol.Fat(), chain, p.top)
    requires DirTables.Holds(p, chain, ZeroTable(n), vol.view)
    requires p.top == 0 ==>
               p.base == vol.g.fatbase + vol.g.fsize && vol.g.nFats == 1 && p.roots == ROOT_ENTRIES
                 && p.base + ROOT_SECTORS <= vol.g.database
    ensures TableOn(vol, EmptySetting(vol), p, chain, ZeroTable(n))
  {
    hide FatOf, NoOnes, CountExact, Tracks, Mirrors, DirTables.Holds;
    OwnChain(EmptySetting(vol), vol.Fat(), chain, p.top);
  }

  lemma RootFixed(vol: Volume)
    requires vol.Valid() && vol.g.Wf() && !vol.g.kind.Fat32?
    requires Filled(vol.view, vol.g.fatbase + vol.g.fsize, ROOT_SECTORS, ZeroSector())
    ensures HeapOk(EmptySetting(vol), vol.Fat(), [], 0)
    ensures DirTables.Holds(Place(vol.g, 0, vol.g.fatbase + vol.g.fsize, ROOT_ENTRIES), [], ZeroTable(ROOT_SECTORS),
            vol.view)
  {
    hide FatOf;
    var base := vol.g.fatbase + vol.g.fsize;
    var p := Place(vol.g, 0, base, ROOT_ENTRIES);
    forall k: nat | k < ROOT_SECTORS
      ensures FileState.At(vol.view, p.SectorOf([], k)) == ZeroSector()
    {
      assert base <= base + k < base + ROOT_SECTORS;
    }
  }
}
