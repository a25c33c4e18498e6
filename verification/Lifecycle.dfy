/** From an unformatted drive to a file that is written, closed, found and listed: all layers in one run. */
module Lifecycles {
  import opened Bytes
  import opened VolumeGeometry
  import opened FatEntries
  import opened Chains
  import opened Volumes
  import opened FileLayout
  import opened FileState
  import opened DirEntries
  import opened OpenFiles
  import opened LongNames
  import opened NameSegments
  import opened ShortNames
  import opened DirTables
  import opened Directories
  import opened DirOps
  import opened Listing
  import opened NameLists
  import opened Utf
  import Allocation
  import Drives
  import FileRuns
  import FormatPlans
  import FreshVolumes

  // ---- An entry that was opened and written ----------------------------------------------------

  /** Entries of the same object: names alike, and neither is a volume label or part of a long name. */
  ghost predicate SameObject(e: Entry, f: Entry) {
    e[..11] == f[..11] && e[DIR_NTRES] == f[DIR_NTRES] && Attr(e) / AM_VOL % 2 == 0 && Attr(f) / AM_VOL % 2 == 0
  }

  /** The directory changed in entry i only, which is still of the same object. */
  ghost predicate Renewed(es: seq<Entry>, fs: seq<Entry>, i: nat) {
    && i < |es| == |fs| && SameObject(es[i], fs[i])
    && forall j :: 0 <= j < |es| && j != i ==> fs[j] == es[j]
  }

  lemma SameFirst(e: Entry, f: Entry)
    requires SameObject(e, f)
    ensures e[0] == f[0] && IsLong(e) == IsLong(f) == false && IsVolume(e) == IsVolume(f) == false
    ensures Attr(e) != AM_LFN as nat && Attr(f) != AM_LFN as nat && Free(e) == Free(f)
  {
    assert e[..11][0] == f[..11][0];
  }

  lemma {:induction false} RenewedFinds(q: Query, es: seq<Entry>, fs: seq<Entry>, i: nat, at: nat, s: Scan)
    requires Renewed(es, fs, at)
    ensures Search(q, fs, i, s) == Search(q, es, i, s)
    decreases |es| - i
  {
    hide SumOf, PartMatches;
    if i < |es| {
      if i == at {
        SameFirst(es[i], fs[i]);
      }
      match Look(q, s, es[i], i)
      case Ended =>
      case Matched(_) =>
      case GoOn(t) => RenewedFinds(q, es, fs, i + 1, at, t);
    }
  }

  lemma RenewedIsWellFormed(es: seq<Entry>, fs: seq<Entry>, at: nat)
    requires Renewed(es, fs, at) && WellFormed(es)
    ensures WellFormed(fs)
  {
    SameFirst(es[at], fs[at]);
    forall i | 0 <= i < |fs| - 1
      ensures Follows(fs[i], fs[i + 1])
    {
      assert Follows(es[i], es[i + 1]);
    }
  }

  lemma RenewedIsBlock(es: seq<Entry>, fs: seq<Entry>, p: nat, n: nat, lfn: seq<Unit>, fn: Field)
    requires 0 < n && Renewed(es, fs, p + n - 1) && Block(es, p, n, lfn, fn)
    ensures Block(fs, p, n, lfn, fn)
  {
    hide IsPart;
  }

  lemma OtherEntry(b: Sector, d: Sector, o: EntryOfs, r: EntryOfs)
    requires SameName(b, d, o) && (r + 32 <= o || o + 32 <= r)
    ensures d[r..r + 32] == b[r..r + 32]
  {
  }

  lemma ArchivedKind(a: byte)
    requires a as nat % 0x40 / AM_VOL % 2 == 0
    ensures Archived(a) as nat % 0x40 / AM_VOL % 2 == 0
  {
    var q, m := a as nat / 0x20, a as nat % 0x20;
    assert a as nat == 0x20 * q + m;
    if q % 2 == 0 {
      var h := q / 2;
      assert a as nat == 0x40 * h + m && Archived(a) as nat == 0x40 * h + (m + 0x20);
      DivIs(a as nat, h, 0x40);
      DivIs(Archived(a) as nat, h, 0x40);
      DivIs(m + 0x20, m / AM_VOL + 4, AM_VOL);
    }
  }

  lemma OwnEntry(b: Sector, d: Sector, o: EntryOfs, e: Entry, f: Entry)
    requires SameName(b, d, o) && e == b[o..o + 32] && f == d[o..o + 32] && Attr(e) / AM_VOL % 2 == 0
    ensures SameObject(e, f)
  {
    hide Archived;
    assert e[DIR_ATTR] == b[o + DIR_ATTR];
    ArchivedKind(b[o + DIR_ATTR]);
    assert f[..11] == e[..11] by {
      assert forall x :: 0 <= x < 11 ==> f[x] == d[o + x] && e[x] == b[o + x];
    }
    assert f[DIR_NTRES] == d[o + DIR_NTRES] && e[DIR_NTRES] == b[o + DIR_NTRES];
    assert f[DIR_ATTR] == d[o + DIR_ATTR];
  }

  /** Recording in entry i of a table renews that entry. */
  lemma EntryRenewed(table: seq<Sector>, i: nat, d: Sector)
    requires i < RowCount(table) && i / PER_SECTOR < |table| && SameName(table[i / PER_SECTOR], d, i % PER_SECTOR * 32)
    requires Attr(Rows(table)[i]) / AM_VOL % 2 == 0
    ensures Renewed(Rows(table), Rows(table[i / PER_SECTOR := d]), i)
  {
    hide SameName, SameObject, Attr;
    var k := i / PER_SECTOR;
    forall j: nat | j < RowCount(table)
      ensures if j == i then SameObject(EntryAt(table, i), EntryAt(table[k := d], i))
              else EntryAt(table[k := d], j) == EntryAt(table, j)
    {
      EntryAfter(table, i, d, j);
    }
  }

  lemma EntryAfter(table: seq<Sector>, i: nat, d: Sector, j: nat)
    requires i < RowCount(table) && i / PER_SECTOR < |table| && SameName(table[i / PER_SECTOR], d, i % PER_SECTOR * 32)
    requires Attr(EntryAt(table, i)) / AM_VOL % 2 == 0 && j < RowCount(table)
    ensures var after := table[i / PER_SECTOR := d];
            if j == i then SameObject(EntryAt(table, i), EntryAt(after, i)) else EntryAt(after, j) == EntryAt(table, j)
  {
    hide SameName, SameObject, Attr;
    var k := i / PER_SECTOR;
    if j == i {
      OwnEntry(table[k], d, i % PER_SECTOR * 32, EntryAt(table, i), EntryAt(table[k := d], i));
    } else if j / PER_SECTOR == k {
      OtherEntry(table[k], d, i % PER_SECTOR * 32, j % PER_SECTOR * 32);
    }
  }

  // ---- Creating a name on a fresh volume -------------------------------------------------------

  lemma AllFree(es: seq<Entry>, fs: seq<Entry>)
    requires FreshVolumes.AllZero(es) && Grown(es, fs)
    ensures FreshVolumes.AllZero(fs) && forall i :: 0 <= i < |fs| ==> Free(fs[i])
  {
  }

  lemma NothingThere(q: Query, es: seq<Entry>)
    requires FreshVolumes.AllZero(es)
    ensures Find(q, es).NotThere?
  {
  }

  lemma RowThere(es: seq<Entry>, n: nat)
    requires n <= |es| && forall i :: 0 <= i < |es| ==> Free(es[i])
    ensures !NoRow(es, n)
  {
    assert !Blocked(es, 0, n);
  }

  /** There is room for every name. */
  lemma RoomForName(d: Dir, es: seq<Entry>, n: nat)
    requires d.Valid() && FreshVolumes.AllZero(es) && Grown(es, Rows(d.table)) && |d.st.own| > 1
             && (d.top == 0 ==> |es| >= 21)
    requires n <= 21
    ensures !(NoRow(Rows(d.table), n) && CannotGrow(d))
  {
    hide Rows, TableOn, NoRow;
    AllFree(es, Rows(d.table));
    if n <= |Rows(d.table)| {
      RowThere(Rows(d.table), n);
    } else {
      ShortChain(d);
    }
  }

  /** A table of less than 21 entries has one cluster, and then the volume is not full. */
  lemma ShortChain(d: Dir)
    requires d.Valid() && d.top != 0 && RowCount(d.table) < 21 && |d.st.own| > 1
    ensures FreeSet(d.fs.Fat()) != {}
  {
    hide CountExact, NoOnes, ViewOk, Isolated, Tracks, Mirrors, FatOf, Chain, SectorAt, FreeSet;
    assert |d.table| <= 1 && d.fs.g.csize * |d.chain| == |d.table|;
    assert |d.chain| <= 1 by {
      if |d.chain| > 1 {
        MulMono(2, |d.chain|, d.fs.g.csize);
      }
    }
    assert Elems(d.chain) <= if d.chain == [] then {} else {d.chain[0]};
    SubsetCard(Elems(d.chain), if d.chain == [] then {} else {d.chain[0]});
    assert Elems(d.chain) + {} == Elems(d.chain);
  }

  lemma NoneTaken(buf: Buffer, up: Unit -> Unit, fn0: Field, lfn: seq<Unit>, es: seq<Entry>)
    requires FreshVolumes.AllZero(es)
    ensures !AllTaken(buf, up, fn0, lfn, 100, es)
  {
    hide Numbered;
    var fn := HasNumbered(fn0, lfn);
    NothingThere(Query(buf, fn, up, true, false), es);
  }

  /** So the engine does not refuse one. */
  lemma NotRefused(d: Dir, es: seq<Entry>, buf: Buffer, up: Unit -> Unit, lfn: seq<Unit>, fn0: Field, cf: Flags)
    requires d.Valid() && FreshVolumes.AllZero(es) && Grown(es, Rows(d.table)) && |d.st.own| > 1
             && (d.top == 0 ==> |es| >= 21)
    requires Name(lfn)
    ensures !Refused(d, buf, up, lfn, fn0, cf)
  {
    hide TableOn, Rows, NoRow, CannotGrow, AllTaken;
    AllFree(es, Rows(d.table));
    NoneTaken(buf, up, fn0, lfn, Rows(d.table));
    RoomForName(d, es, EntriesFor(lfn, cf));
  }

  /** Clusters of the root directory once its first name, of n entries, is there. */
  function RootClusters(fixed: bool, csize: nat, n: nat): nat {
    if fixed then 0 else if n > PER_SECTOR * csize then 2 else 1
  }

  /** A name of these characters takes n entries. */
  ghost predicate EntriesTaken(n: nat, cs: seq<nat>) {
    AllScalar(cs) && (n == 1 || n == Parts(Utf16All(cs)) + 1)
  }

  /** Bytes a file can hold that is alone in the root directory, under a name of n entries. */
  ghost function RoomOf(p: FormatPlans.Plan, n: nat): nat
    requires p.clusters >= FormatPlans.MIN_CLUSTERS
  {
    512 * p.csize * (p.clusters - RootClusters(!p.kind.Fat32?, p.csize, n))
  }

  lemma RootSize(d: Dir, was: nat, n: nat)
    requires d.Valid() && n <= RowCount(d.table) && n <= 21
    requires d.top != 0 ==> was == d.fs.g.csize && NoLonger(was, |d.table|, d.fs.g.csize, n)
    ensures |d.chain| == RootClusters(d.top == 0, d.fs.g.csize, n)
    ensures |d.st.own| == |d.chain| + |FreeSet(d.fs.Fat())|
  {
    hide CountExact, NoOnes, ViewOk, Isolated, Tracks, Mirrors, FatOf, Chain, SectorAt, FreeSet;
    OwnCount(d.st, d.fs.Fat(), d.chain, d.top);
    OwnChain(d.st, d.fs.Fat(), d.chain, d.top);
    if d.top != 0 {
      ChainLength(d.fs.g.csize, |d.chain|, |d.table|, n);
    }
  }

  lemma ChainLength(csize: nat, len: nat, size: nat, n: nat)
    requires csize > 0 && len > 0 && size == csize * len && n <= 21 && n <= PER_SECTOR * size
    requires NoLonger(csize, size, csize, n)
    ensures len == if n > PER_SECTOR * csize then 2 else 1
  {
    assert csize * len - csize == csize * (len - 1);
    if len > 2 {
      MulMono(2, len - 1, csize);
    }
  }

  /** The first name starts the table, and this many clusters are left. */
  lemma FirstNameLeaves(d: Dir, was: nat, before: seq<Entry>, p: nat, n: nat, lfn: seq<Unit>, fn: Field)
    requires d.Valid() && Registered(before, Rows(d.table), p, n, lfn, fn) && FreshVolumes.AllZero(before) && n <= 21
    requires d.top != 0 ==> was == d.fs.g.csize && NoLonger(was, |d.table|, d.fs.g.csize, p + n)
    ensures p == 0 && RootClusters(d.top == 0, d.fs.g.csize, n) + |FreeSet(d.fs.Fat())| == |d.st.own|
  {
    hide Rows, Block, Dir.Valid, FreeSet, RootClusters, NoLonger;
    BlockRoom(Rows(d.table), p, n, lfn, fn);
    RootSize(d, was, n);
  }

  // ---- Opening a new entry ---------------------------------------------------------------------

  /** The sectors outside the FAT and the free clusters, but for the directory sector. */
  ghost function Frozen(g: Geometry, view: seq<Sector>, free: set<nat>, dirSect: nat): map<nat, Sector> {
    map r: nat | r < |view| && !g.InFat(r) && r != dirSect && (forall c :: c in free ==> !InCluster(g, c, r)) :: view[r]
  }

  /** What a file without clusters may use: the free ones. Its entry is in sector s, of cluster home. */
  ghost function NewFile(g: Geometry, fat: seq<nat>, view: seq<Sector>, s: nat, home: nat): Setting {
    Setting(g, FreeSet(fat), s, home, fat, Frozen(g, view, FreeSet(fat), s))
  }

  /** The cluster of table sector k, if the table is a chain. */
  function HomeOf(p: Place, chain: seq<nat>, k: nat): nat {
    if p.top != 0 && Has(p.g, chain, k) then chain[k / p.g.csize] else 0
  }

  /** An entry in a table can be that of a file without clusters. */
  lemma NewFileSetting(std: Setting, p: Place, fat: seq<nat>, chain: seq<nat>, view: seq<Sector>, k: nat)
    requires p.Ok() && std.g == p.g && HeapOk(std, fat, chain, p.top) && |view| == p.g.total && k < p.Sectors(chain)
    requires Isolated(std, p)
    ensures var st := NewFile(p.g, fat, view, p.SectorOf(chain, k), HomeOf(p, chain, k));
            SettingOk(st) && HeapOk(st, fat, [], 0) && ViewOk(st, view)
  {
    hide SectorAt, InCluster;
    TableSector(std, p, fat, chain, k);
    ChainUsed(fat, chain, p.top);
    var st := NewFile(p.g, fat, view, p.SectorOf(chain, k), HomeOf(p, chain, k));
    if p.top != 0 {
      assert chain[k / p.g.csize] in Elems(chain);
    }
    assert Elems([]) == {};
  }

  /** The entry names no cluster and no size. */
  ghost predicate NoData(e: Entry) {
    e[DIR_FST_CLUS_HI] == e[DIR_FST_CLUS_HI + 1] == 0 && forall k :: DIR_FST_CLUS_LO <= k < 32 ==> e[k] == 0
  }

  /** The entry of a file without data. */
  ghost predicate IsNew(e: Entry) {
    NoData(e) && Attr(e) / AM_VOL % 2 == 0
  }

  lemma EmptyEntry(kind: FatKind, b: Sector, o: EntryOfs, e: Entry)
    requires e == b[o..o + 32] && NoData(e)
    ensures LdClust(kind, b, o) == 0 && LdSize(b, o) == 0
  {
    assert forall k :: DIR_FST_CLUS_HI <= k < 32 ==> b[o + k] == e[k];
  }

  /** Where the entry under a directory's cursor is, and what its file may use. */
  ghost function EntrySetting(d: Dir, i: nat): Setting
    requires d.Valid()
    reads d, d.fs
  {
    NewFile(d.fs.g, d.fs.Fat(), d.fs.view, d.Where().SectorOf(d.chain, i / PER_SECTOR),
      HomeOf(d.Where(), d.chain, i / PER_SECTOR))
  }

  /** A new entry can be opened. */
  lemma NewFileOpens(d: Dir, i: nat)
    requires d.Valid() && d.AtEntry(i) && i < RowCount(d.table) && NoData(Rows(d.table)[i]) && d.fs.winsect == d.sect
    ensures i / PER_SECTOR < |d.table| && d.sect < |d.fs.view| && d.fs.view[d.sect] == d.table[i / PER_SECTOR]
    ensures EntrySetting(d, i).dirSect == d.sect == d.Where().SectorOf(d.chain, i / PER_SECTOR)
            && d.dptr % 512 == i % PER_SECTOR * 32
    ensures FileRuns.Openable(d.fs, EntrySetting(d, i), i % PER_SECTOR * 32, [])
    ensures LdSize(d.fs.view[d.sect], i % PER_SECTOR * 32) == 0
    ensures EntrySetting(d, i).g == d.fs.g && EntrySetting(d, i).own == FreeSet(d.fs.Fat())
  {
    hide SettingOk, HeapOk, ViewOk, SectorAt, LdClust, LdSize, NoData, NewFile, Tracks, Mirrors, CountExact, NoOnes,
         Isolated, Geometry.Wf, Geometry.Layout;
    var k := i / PER_SECTOR;
    NextIndex(i, |d.table|);
    d.Offset(i);
    NewFileSetting(d.st, d.Where(), d.fs.Fat(), d.chain, d.fs.view, k);
    TableSector(d.st, d.Where(), d.fs.Fat(), d.chain, k);
    EmptyEntry(d.fs.g.kind, d.table[k], i % PER_SECTOR * 32, Rows(d.table)[i]);
    NewFileFields(d.fs.g, d.fs.Fat(), d.fs.view, d.sect, HomeOf(d.Where(), d.chain, k));
  }

  lemma NewFileFields(g: Geometry, fat: seq<nat>, view: seq<Sector>, s: nat, home: nat)
    ensures NewFile(g, fat, view, s, home).g == g && NewFile(g, fat, view, s, home).dirSect == s
    ensures NewFile(g, fat, view, s, home).own == FreeSet(fat)
  {
  }

  // ---- The table after the file was closed -----------------------------------------------------

  /** A volume that holds a table and else whatever it may. */
  ghost function Anything(g: Geometry, fat: seq<nat>, chain: seq<nat>): Setting {
    Setting(g, Elems(chain) + FreeSet(fat), 0, 0, fat, map[])
  }

  /** A file that took free clusters left the table's chain as it was. */
  lemma ChainStays(std: Setting, p: Place, fat: seq<nat>, chain: seq<nat>, st: Setting, fat': seq<nat>, own: seq<nat>,
                   sclust: nat)
    requires p.g == std.g == st.g && HeapOk(std, fat, chain, p.top) && st.own == FreeSet(fat) && st.frozenFat == fat
    requires HeapOk(st, fat', own, sclust)
    ensures HeapOk(Anything(p.g, fat', chain), fat', chain, p.top)
  {
    ChainUsed(fat, chain, p.top);
    forall i | 0 <= i < |chain|
      ensures InRange(fat', chain[i]) && fat'[chain[i]] == fat[chain[i]]
    {
      assert InRange(fat, chain[i]) && chain[i] in Elems(chain);
    }
  }

  /** And its sectors but for that of the entry. */
  lemma SectorStays(std: Setting, p: Place, fat: seq<nat>, chain: seq<nat>, view: seq<Sector>, k: nat, home: nat,
                    view': seq<Sector>, j: nat)
    requires p.Ok() && std.g == p.g && HeapOk(std, fat, chain, p.top) && |view| == p.g.total
    requires k < p.Sectors(chain) && j < p.Sectors(chain) && j != k
    requires ViewOk(NewFile(p.g, fat, view, p.SectorOf(chain, k), home), view')
    ensures p.SectorOf(chain, j) < |view| && FileState.At(view', p.SectorOf(chain, j)) == view[p.SectorOf(chain, j)]
  {
    hide SectorAt;
    TableSector(std, p, fat, chain, j);
    TableInjective(std, p, fat, chain, j, k);
    ChainUsed(fat, chain, p.top);
    var s := p.SectorOf(chain, j);
    assert p.top != 0 ==> chain[j / p.g.csize] in Elems(chain);
    forall c | c in FreeSet(fat)
      ensures !InCluster(p.g, c, s)
    {
      if p.top != 0 && InCluster(p.g, c, s) {
        ClustersApart(p.g, c, chain[j / p.g.csize], s);
      } else if p.top == 0 {
        ClusterInData(p.g, c);
      }
    }
    assert s in Frozen(p.g, view, FreeSet(fat), p.SectorOf(chain, k));
  }

  /** So the volume still holds the table, with the sector of the entry as the file left it. */
  lemma TableStays(std: Setting, p: Place, fat: seq<nat>, chain: seq<nat>, table: seq<Sector>, view: seq<Sector>,
                   k: nat, home: nat, vol: Volume, own: seq<nat>, sclust: nat)
    requires p.Ok() && p.g == std.g && HeapOk(std, fat, chain, p.top) && DirTables.Holds(p, chain, table, view)
             && |view| == p.g.total
    requires k < |table| && vol.Valid() && vol.g == p.g && CountExact(vol.Fat(), vol.freeClst) && NoOnes(vol.Fat())
    requires var st := NewFile(p.g, fat, view, p.SectorOf(chain, k), home);
             HeapOk(st, vol.Fat(), own, sclust) && ViewOk(st, vol.view)
    ensures TableOn(vol, Anything(p.g, vol.Fat(), chain), p, chain,
            table[k := FileState.At(vol.view, p.SectorOf(chain, k))])
  {
    hide HeapOk, ViewOk, CountExact, NoOnes, SectorAt, Tracks, Mirrors, FatOf, Geometry.Wf, Geometry.Layout, Place.Ok;
    var st := NewFile(p.g, fat, view, p.SectorOf(chain, k), home);
    ChainStays(std, p, fat, chain, st, vol.Fat(), own, sclust);
    AnythingGoes(p, vol.Fat(), chain, vol.view);
    forall j | 0 <= j < |table|
      ensures FileState.At(vol.view, p.SectorOf(chain, j)) ==
              if j == k then FileState.At(vol.view, p.SectorOf(chain, k)) else table[j]
    {
      if j != k {
        SectorStays(std, p, fat, chain, view, k, home, vol.view, j);
      }
    }
  }

  lemma AnythingGoes(p: Place, fat: seq<nat>, chain: seq<nat>, view: seq<Sector>)
    requires p.Ok() && HeapOk(Anything(p.g, fat, chain), fat, chain, p.top) && |view| == p.g.total
    ensures Isolated(Anything(p.g, fat, chain), p) && ViewOk(Anything(p.g, fat, chain), view)
  {
    OwnChain(Anything(p.g, fat, chain), fat, chain, p.top);
  }

  /** A closed file leaves the volume with its chain and, else, what was frozen. */
  ghost predicate LeftWith(fs: Volume, st: Setting, own: seq<nat>, sclust: nat)
    reads fs
  {
    && fs.Valid() && st.g == fs.g && HeapOk(st, fs.Fat(), own, sclust) && ViewOk(st, fs.view)
    && CountExact(fs.Fat(), fs.freeClst) && NoOnes(fs.Fat())
  }

  /** Open a file, run operations on it, close it, open it again and read it. */
  method UseFile(fs: Volume, dirSect: nat, dirOfs: EntryOfs, ops: seq<FileRuns.Op>, ghost st: Setting)
    returns (outs: seq<FileRuns.Out>, data: seq<byte>, ghost states: seq<FileRuns.ByteFile>, ghost own: seq<nat>,
      ghost sclust: nat)
    requires fs.reliable && dirSect == st.dirSect && FileRuns.Openable(fs, st, dirOfs, [])
    requires forall j :: 0 <= j < |ops| ==> FileRuns.Allowed(ops[j])
    modifies fs
    ensures FileRuns.Trace(FileRuns.Access(true, true, Room(st)), states, ops, outs) && states[0].pos == 0
    ensures |states[0].content| == LdSize(old(fs.view)[dirSect], dirOfs) && data == states[|ops|].content
    ensures LeftWith(fs, st, own, sclust) && SameName(old(fs.view)[dirSect], FileState.At(fs.view, dirSect), dirOfs)
    ensures LdSize(FileState.At(fs.view, dirSect), dirOfs) == |data|
  {
    hide FileRuns.Openable, SameName, FileRuns.Step, Upto, HeapOk, ViewOk, CountExact, NoOnes, SettingOk, Shows,
         BufferOk;
    var h: File;
    outs, h, states := FileRuns.Session(fs, true, true, dirSect, dirOfs, st, [], ops);
    var res: FResult;
    res, data := h.Read(h.objsize);
    own, sclust := h.chain, h.sclust;
  }

  /** The size an entry records. */
  function Size(e: Entry): nat {
    LdDword(e, DIR_FILE_SIZE)
  }

  lemma SizeRecorded(table: seq<Sector>, i: nat)
    requires i < RowCount(table) && i / PER_SECTOR < |table|
    ensures Size(Rows(table)[i]) == LdSize(table[i / PER_SECTOR], i % PER_SECTOR * 32)
  {
    var o := i % PER_SECTOR * 32;
    assert forall k :: 0 <= k < 32 ==> Rows(table)[i][k] == table[i / PER_SECTOR][o + k];
  }

  /** Bytes in the free clusters. */
  ghost function FreeBytes(fs: Volume): nat
    requires fs.Valid()
    reads fs
  {
    ClusterBytes(fs.g) * |FreeSet(fs.Fat())|
  }

  /** Use the file of a new entry, and open the directory again. */
  method WriteAndReopen(d: Dir, ghost i: nat, ops: seq<FileRuns.Op>)
    returns (outs: seq<FileRuns.Out>, data: seq<byte>, root: Dir, ghost states: seq<FileRuns.ByteFile>)
    requires d.Valid() && d.fs.reliable && d.AtEntry(i) && i < RowCount(d.table)
    requires IsNew(Rows(d.table)[i]) && forall j :: 0 <= j < |ops| ==> FileRuns.Allowed(ops[j])
    modifies d.fs
    ensures FileRuns.Trace(FileRuns.Access(true, true, old(FreeBytes(d.fs))), states, ops, outs)
    ensures states[0].content == [] && states[0].pos == 0 && data == states[|ops|].content
    ensures fresh(root) && root.fs == d.fs && root.Valid() && Renewed(Rows(d.table), Rows(root.table), i)
    ensures Size(Rows(root.table)[i]) == |data|
  {
    hide Rows, Dir.AtEntry, NoData, Attr, FileRuns.Openable, NewFile, SameName, Renewed, FileRuns.Step,
         Isolated, HeapOk, ViewOk, CountExact, NoOnes, SettingOk, Place.Ok, DirTables.Holds, Tracks, Mirrors, FatOf,
         SectorAt, Anything, HomeOf, Geometry.Layout;
    var res, e := d.Load(i);
    ghost var st := EntrySetting(d, i);
    ghost var fat, view, k := d.fs.Fat(), d.fs.view, i / PER_SECTOR;
    NewFileOpens(d, i);
    ghost var own, sclust;
    outs, data, states, own, sclust := UseFile(d.fs, d.sect, d.dptr % 512, ops, st);
    TableStays(d.st, d.Where(), fat, d.chain, d.table, view, k, HomeOf(d.Where(), d.chain, k), d.fs, own, sclust);
    ghost var after := FileState.At(d.fs.view, d.sect);
    root := new Dir(d.fs, d.top, d.base, d.roots, Anything(d.fs.g, d.fs.Fat(), d.chain), d.chain, d.table[k := after]);
    EntryRenewed(d.table, i, after);
    SizeRecorded(root.table, i);
  }

  // ---- One run through all layers --------------------------------------------------------------

  /** The name is the only one of the directory, at its start, and the query finds it. */
  ghost predicate IsFirst(es: seq<Entry>, o: Item, q: Query, r: Segment) {
    && r.Named? && o.at == 0 && 0 < o.n <= |es| && o.n == EntriesFor(r.lfn, r.cf)
    && WellFormed(es) && Tiled(es, [o]) && IsCalled(es, o)
    && Find(q, es) == Found(o.n - 1, if o.n == 1 then NO_BLOCK else 0)
  }

  /** It still is when its entry was renewed. */
  lemma StillFirst(es: seq<Entry>, fs: seq<Entry>, o: Item, q: Query, r: Segment)
    requires IsFirst(es, o, q, r) && Renewed(es, fs, o.n - 1)
    ensures IsFirst(fs, o, q, r)
  {
    hide Block, WellFormed, Passed, IsShort, Utf16All;
    RenewedIsBlock(es, fs, 0, o.n, o.lfn, o.fn);
    RenewedIsWellFormed(es, fs, o.n - 1);
    RenewedFinds(q, es, fs, 0, o.n - 1, SCAN_START);
    forall i | 0 <= i < |fs| && Outside([o], i)
      ensures Passed(fs[i])
    {
      assert !([o][0].at <= i < [o][0].End());
    }
  }

  lemma NewEntry(fn: Field, body: bool, ext: bool)
    ensures NoData(Stamped(ShortEntry(fn, body, ext))) && Attr(Stamped(ShortEntry(fn, body, ext))) / AM_VOL % 2 == 0
  {
    StampedFields(ShortEntry(fn, body, ext));
    hide Stamped;
  }

  /** The query and the name of a path segment with these characters. */
  ghost predicate Wanted(q: Query, r: Segment, cs: seq<nat>) {
    && r.Named? && Name(r.lfn) && r.lfn != [] && Usable(r.fn) && (r.cf.loss ==> r.cf.lfn)
    && (!r.cf.lfn ==> IsShort(r.lfn, r.fn, r.cf.body, r.cf.ext)) && QueryFor(q, r, q.up)
    && AllScalar(cs) && AllLegal(cs) && cs != [] && r.lfn == Utf16All(cs)
  }

  /** The directory is empty and can grow: the root of a fresh volume. */
  ghost predicate EmptyRoot(d: Dir)
    requires d.Valid()
    reads d, d.fs
  {
    && WellFormed(Rows(d.table)) && FreshVolumes.AllZero(Rows(d.table)) && |d.st.own| > 1
    && if d.top == 0 then |Rows(d.table)| >= 21 else |d.table| == d.fs.g.csize
  }

  /** The name is the first of the directory, and so many clusters are left. */
  ghost predicate FirstCreated(d: Dir, o: Item, q: Query, r: Segment)
    requires d.Valid()
    reads d, d.fs
  {
    && IsFirst(Rows(d.table), o, q, r) && d.AtEntry(o.n - 1) && o.n <= 21 && IsNew(Rows(d.table)[o.n - 1])
    && RootClusters(d.top == 0, d.fs.g.csize, o.n) + |FreeSet(d.fs.Fat())| == |d.st.own|
  }

  /** Create a name in an empty root directory. */
  method CreateFirst(d: Dir, q: Query, r: Segment, ghost cs: seq<nat>) returns (ghost o: Item)
    requires d.Valid() && d.fs.reliable && Wanted(q, r, cs) && EmptyRoot(d)
    modifies d`dptr, d`clust, d`sect, d`chain, d`table, d.fs
    ensures d.Valid() && o.cs == cs && FirstCreated(d, o, q, r)
  {
    hide TableOn, Dir.AtEntry, Rows, WellFormed, Find, Grown, Usable, Registered, Refused, Block, ShortEntry, HasBody,
         HasExt, NoData, Attr, FreshVolumes.AllZero, IsShort, Utf16All, Stamped, FreeSet, RootClusters, NoLonger,
         Tiled, IsCalled, Inserted, EntriesFor;
    ghost var es := Rows(d.table);
    NothingThere(q, es);
    var res: FResult, fn: Field;
    ghost var before, p: nat, n: nat;
    res, fn, before, p, n := Create(d, q, r.lfn, r.cf);
    if res == FrDenied {
      NotRefused(d, es, q.buf, q.up, r.lfn, q.fn, r.cf);
    }
    NewEntry(fn, r.cf.body, r.cf.ext);
    AllFree(es, before);
    NameFits(r.lfn, r.cf);
    FirstNameLeaves(d, |old(d.table)|, before, p, n, r.lfn, fn);
    o := Item(p, n, r.lfn, fn, cs);
    TiledEmpty(es);
    NameCreated(es, before, Rows(d.table), [], o, r);
    OnlyOne(o);
  }

  lemma NameFits(lfn: seq<Unit>, cf: Flags)
    requires Name(lfn)
    ensures EntriesFor(lfn, cf) <= 21
  {
  }

  lemma OnlyOne(o: Item)
    ensures Inserted([], o) == [o]
  {
  }

  lemma TiledEmpty(es: seq<Entry>)
    requires FreshVolumes.AllZero(es)
    ensures Tiled(es, [])
  {
  }

  /** Find a name and list the directory. */
  method FindAndList(root: Dir, q: Query, buf0: Buffer, uni: byte -> Unit, ghost o: Item, ghost r: Segment)
    returns (list: seq<Info>)
    requires root.Valid() && root.fs.reliable && IsFirst(Rows(root.table), o, q, r)
    requires forall c: byte :: c < 0x80 ==> uni(c) == c as nat
    modifies root`dptr, root`clust, root`sect, root`chain, root`table, root.fs
    ensures |list| == 1 && IsShown(Rows(old(root.table)), o, list[0])
  {
    hide TableOn, Dir.AtEntry, Rows, Find, Tiled, IsCalled, IsShown, WellFormed;
    var res, at, blk := DirFind(root, q);
    res, list := ListAll(root, buf0, uni, [o]);
  }

  /** The name a path segment asks for, and the query for it. */
  method Asked(buf0: Buffer, path: seq<byte>, start: nat, oem: Unit -> byte, up: Unit -> Unit, ghost want: seq<nat>,
               ghost wat: seq<nat>)
    returns (q: Query, r: Segment)
    requires start <= |path| && Spells(path, start, wat, want) && 0xFFFF !in want && forall u: Unit :: oem(u) != 0x2E
    ensures Wanted(q, r, want[..StripEnd(want)])
  {
    hide SegmentIs, StripsTo, IsShort, Utf16All, Usable;
    ghost var cs, at;
    r, cs, at := CreateName(path, start, oem, want, wat);
    ghost var m := StripEnd(cs);
    SegmentScalar(path, at, cs);
    NoFiller(cs, m);
    Storable(cs, m, r.lfn);
    q := Query(Loaded(buf0, r.lfn), r.fn, up, false, r.cf.loss);
  }

  lemma RootIsEmpty(d: Dir, p: FormatPlans.Plan)
    requires d.Valid() && WellFormed(Rows(d.table)) && FreshVolumes.AllZero(Rows(d.table))
    requires (d.top == 0 ==> |Rows(d.table)| == FormatPlans.ROOT_ENTRIES) && d.chain == FreshVolumes.RootChain(d.fs.g)
    requires |d.st.own| == p.clusters >= FormatPlans.MIN_CLUSTERS && (d.top == 0 <==> !p.kind.Fat32?)
             && d.fs.g.kind == p.kind
    ensures EmptyRoot(d)
  {
    hide Rows, WellFormed, FreshVolumes.AllZero, HeapOk, ViewOk, CountExact, NoOnes, SettingOk, Tracks, Mirrors, FatOf,
         SectorAt, Isolated, Geometry.Layout, Geometry.Wf;
  }

  lemma EntriesOf(es: seq<Entry>, o: Item)
    requires Tiled(es, [o]) && 0 < o.n && o.End() <= |es| && IsCalled(es, o)
    ensures EntriesTaken(o.n, o.cs)
  {
    hide IsPart, Utf16All, IsShort, HasBody, HasExt;
    assert Block(es, [o][0].at, [o][0].n, [o][0].lfn, [o][0].fn);
  }

  lemma RoomLeftFor(d: Dir, p: FormatPlans.Plan, o: Item, q: Query, r: Segment)
    requires d.Valid() && FirstCreated(d, o, q, r)
    requires d.fs.g.kind == p.kind && d.fs.g.csize == p.csize && (d.top == 0 <==> !p.kind.Fat32?)
    requires |d.st.own| == p.clusters >= FormatPlans.MIN_CLUSTERS
    ensures FreeBytes(d.fs) == RoomOf(p, o.n) && EntriesTaken(o.n, o.cs)
  {
    hide Rows, Dir.Valid, IsNew, Tiled, IsCalled, WellFormed, Find, FreeSet, RootClusters, Dir.AtEntry, EntriesTaken;
    EntriesOf(Rows(d.table), o);
  }

  /** Run operations on the file just created, close it, open it and read it, and find it and list the directory. */
  method WriteAndList(d: Dir, q: Query, r: Segment, ghost o: Item, buf0: Buffer, uni: byte -> Unit,
                      ops: seq<FileRuns.Op>)
    returns (outs: seq<FileRuns.Out>, data: seq<byte>, list: seq<Info>, ghost states: seq<FileRuns.ByteFile>)
    requires d.Valid() && d.fs.reliable && FirstCreated(d, o, q, r)
    requires forall j :: 0 <= j < |ops| ==> FileRuns.Allowed(ops[j])
    requires forall c: byte :: c < 0x80 ==> uni(c) == c as nat
    modifies d.fs
    ensures FileRuns.Trace(FileRuns.Access(true, true, old(FreeBytes(d.fs))), states, ops, outs)
    ensures states[0].content == [] && states[0].pos == 0 && data == states[|ops|].content
    ensures |list| == 1 && IsNamed(list[0], o.cs) && Size(list[0].e) == |data|
  {
    hide Rows, Dir.AtEntry, Dir.Valid, NoData, Attr, Renewed, FileRuns.Step, IsShown, Find, Tiled, IsCalled, WellFormed,
         FreeBytes, FreeSet, RootClusters, Size;
    var root: Dir;
    outs, data, root, states := WriteAndReopen(d, o.n - 1, ops);
    StillFirst(Rows(d.table), Rows(root.table), o, q, r);
    ghost var es := Rows(root.table);
    list := FindAndList(root, q, buf0, uni, o, r);
    NamedAsShown(es, o, list[0]);
  }

  /** The listing shows the characters, if their text fits. */
  ghost predicate IsNamed(i: Info, cs: seq<nat>) {
    AllScalar(cs) && (|Utf8All(cs)| <= LFN_BUF ==> i.name == Utf8All(cs))
  }

  lemma NamedAsShown(es: seq<Entry>, o: Item, i: Info)
    requires 0 < o.n && o.End() <= |es| && IsCalled(es, o) && IsShown(es, o, i)
    ensures IsNamed(i, o.cs) && i.e == es[o.End() - 1]
  {
    hide Utf8All, Utf16All, IsShort;
  }

  /** Format a drive of at least 191 sectors, create a file by name in its root directory, run operations on it, close
      it, open it and read it, and find it and list the directory. It always succeeds. The reference's room is that of
      the planned clusters without the root directory's. What is read is what the reference ends with, and the listing
      is one name: the segment's characters, without trailing spaces and dots, in standard UTF-8. */
  method FormatWriteAndList(drive: Drives.Drive, bufSize: nat, buf0: Buffer, path: seq<byte>, start: nat,
                            oem: Unit -> byte, uni: byte -> Unit, up: Unit -> Unit, ops: seq<FileRuns.Op>,
                            ghost want: seq<nat>, ghost wat: seq<nat>)
    returns (outs: seq<FileRuns.Out>, data: seq<byte>, list: seq<Info>, ghost states: seq<FileRuns.ByteFile>,
      ghost p: FormatPlans.Plan, ghost n: nat)
    requires 191 <= |drive.disk| < 0x1_0000_0000 && bufSize > 0 && drive.reliable
    requires start <= |path| && Spells(path, start, wat, want) && 0xFFFF !in want
    requires (forall u: Unit :: oem(u) != 0x2E) && forall c: byte :: c < 0x80 ==> uni(c) == c as nat
    requires forall j :: 0 <= j < |ops| ==> FileRuns.Allowed(ops[j])
    modifies drive
    ensures FormatPlans.Acceptable(p, |old(drive.disk)| - FormatPlans.PARTITION)
    ensures EntriesTaken(n, want[..StripEnd(want)]) && p.clusters >= FormatPlans.MIN_CLUSTERS
    ensures FileRuns.Trace(FileRuns.Access(true, true, RoomOf(p, n)), states, ops, outs)
    ensures states[0].content == [] && states[0].pos == 0 && data == states[|ops|].content
    ensures |list| == 1 && IsNamed(list[0], want[..StripEnd(want)]) && Size(list[0].e) == |data|
  {
    hide Wanted, Spells, Dir.Valid, EmptyRoot, FirstCreated, FileRuns.Step, FormatPlans.Acceptable, RoomOf, Utf8All,
         Allocation.Sound, Rows, IsShown, IsCalled;
    var q, r := Asked(buf0, path, start, oem, up, want, wat);
    ghost var cs := want[..StripEnd(want)];
    var d;
    d, p := FreshVolumes.FormatAndOpenRoot(drive, bufSize);
    RootIsEmpty(d, p);
    ghost var o := CreateFirst(d, q, r, cs);
    n := o.n;
    RoomLeftFor(d, p, o, q, r);
    outs, data, list, states := WriteAndList(d, q, r, o, buf0, uni, ops);
  }
}
