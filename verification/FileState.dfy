/** The state an open file keeps about its chain, its sector buffer and the rest of the volume. */
module FileState {
  import opened Bytes
  import opened VolumeGeometry
  import opened FatEntries
  import opened Chains
  import opened FileLayout

  /** What does not change while the file is open. own are the clusters it may use: those of its
      chain and the free ones. The rest of the volume is frozen, but for the directory sector. */
  datatype Setting = Setting(
    g: Geometry, own: set<nat>, dirSect: nat, dirHome: nat, frozenFat: seq<nat>, frozen: map<nat, Sector>)

  ghost predicate SettingOk(st: Setting) {
    && st.g.Wf()
    && (forall c :: c in st.own ==> st.g.ValidCluster(c))
    && st.dirSect < st.g.total && !st.g.InFat(st.dirSect) && !st.g.Unchecked(st.dirSect)
    && (st.dirSect < st.g.database || (st.dirHome !in st.own && InCluster(st.g, st.dirHome, st.dirSect)))
    && |st.frozenFat| == st.g.nFatent
    && (forall s :: s in st.frozen ==> Foreign(st, s))
  }

  /** A sector no operation on the file may touch. */
  ghost predicate Foreign(st: Setting, s: nat) {
    && s < st.g.total && !st.g.InFat(s) && s != st.dirSect
    && forall c :: c in st.own ==> !InCluster(st.g, c, s)
  }

  ghost predicate ChainOk(fat: seq<nat>, chain: seq<nat>, sclust: nat) {
    if chain == [] then sclust == 0 else Chain(fat, chain) && sclust == chain[0]
  }

  ghost predicate HeapOk(st: Setting, fat: seq<nat>, chain: seq<nat>, sclust: nat) {
    && |fat| == st.g.nFatent == |st.frozenFat|
    && ChainOk(fat, chain, sclust)
    && st.own == Elems(chain) + FreeSet(fat)
    && (forall c :: 2 <= c < |fat| && c !in st.own ==> fat[c] == st.frozenFat[c])
  }

  ghost predicate ViewOk(st: Setting, view: seq<Sector>) {
    |view| == st.g.total && forall s :: s in st.frozen ==> s < |view| && view[s] == st.frozen[s]
  }

  /** The volume's window caches no sector of the file. */
  ghost predicate WindowOk(st: Setting, winsect: nat) {
    winsect < st.g.database || winsect == st.dirSect || winsect == 0xFFFF_FFFF
  }

  /** The file's own sector buffer: invalid, or a sector of an own cluster. */
  ghost predicate BufferOk(st: Setting, view: seq<Sector>, sect: nat, home: nat, buf: Sector, dirty: bool) {
    if sect == 0 then !dirty
    else home in st.own && InCluster(st.g, home, sect) && (!dirty ==> buf == At(view, sect))
  }

  function At(view: seq<Sector>, s: nat): Sector {
    if s < |view| then view[s] else ZeroSector()
  }

  /** File sector k as a reader of the file sees it. */
  function Slot(g: Geometry, chain: seq<nat>, view: seq<Sector>, sect: nat, buf: Sector, k: nat): Sector {
    var s := SectorAt(g, chain, k);
    if s == sect then buf else At(view, s)
  }

  /** image is the file's sectors: the buffer where it lies, the volume elsewhere. */
  ghost predicate Shows(g: Geometry, chain: seq<nat>, image: seq<Sector>, view: seq<Sector>, sect: nat, buf: Sector) {
    forall k :: 0 <= k < |image| ==> Has(g, chain, k) && image[k] == Slot(g, chain, view, sect, buf, k)
  }

  ghost predicate Clean(g: Geometry, chain: seq<nat>, image: seq<Sector>, view: seq<Sector>) {
    forall k :: 0 <= k < |image| ==> Has(g, chain, k) && image[k] == At(view, SectorAt(g, chain, k))
  }

  // ---- Own sectors -----------------------------------------------------------------------------

  lemma OwnSector(st: Setting, winsect: nat, c: nat, s: nat)
    requires SettingOk(st) && WindowOk(st, winsect) && c in st.own && InCluster(st.g, c, s)
    ensures st.g.database <= s < st.g.total && s != winsect && s != st.dirSect && s != 0
    ensures s !in st.frozen && !st.g.InFat(s)
  {
    ClusterInData(st.g, c);
    if s == st.dirSect {
      ClustersApart(st.g, c, st.dirHome, s);
    }
    assert s in st.frozen ==> Foreign(st, s);
  }

  lemma OwnChain(st: Setting, fat: seq<nat>, chain: seq<nat>, sclust: nat)
    requires HeapOk(st, fat, chain, sclust)
    ensures ClustersOk(st.g, chain) && Distinct(chain)
    ensures forall i :: 0 <= i < |chain| ==> chain[i] in st.own
    ensures chain != [] ==> Chain(fat, chain) && sclust == chain[0]
    ensures chain == [] <==> sclust == 0
  {
    forall i | 0 <= i < |chain|
      ensures st.g.ValidCluster(chain[i]) && chain[i] in st.own
    {
      assert InRange(fat, chain[i]) && chain[i] in chain;
    }
    if chain != [] {
      assert InRange(fat, chain[0]);
    }
  }

  /** A file sector lies in an own cluster. */
  lemma OwnFileSector(st: Setting, fat: seq<nat>, chain: seq<nat>, sclust: nat, k: nat)
    requires SettingOk(st) && HeapOk(st, fat, chain, sclust) && Has(st.g, chain, k)
    ensures chain[k / st.g.csize] in st.own
    ensures InCluster(st.g, chain[k / st.g.csize], SectorAt(st.g, chain, k))
    ensures st.g.database <= SectorAt(st.g, chain, k) < st.g.total && SectorAt(st.g, chain, k) != 0
  {
    hide HeapOk, InCluster;
    OwnChain(st, fat, chain, sclust);
    SectorAtIn(st.g, chain, k);
  }

  /** The chain is cut to its first k clusters and exactly the others are freed. */
  ghost predicate CutAt(fat: seq<nat>, chain: seq<nat>, fat': seq<nat>, chain': seq<nat>, k: nat) {
    k <= |chain| && chain' == chain[..k] && FreeSet(fat') == FreeSet(fat) + Elems(chain[k..])
  }

  /** What is its own and not in its chain is free: a chain that gets shorter frees what it loses. */
  lemma CutFrees(st: Setting, fat: seq<nat>, chain: seq<nat>, sclust: nat, fat': seq<nat>, chain': seq<nat>,
                 sclust': nat)
    requires HeapOk(st, fat, chain, sclust) && HeapOk(st, fat', chain', sclust') && chain' <= chain
    ensures CutAt(fat, chain, fat', chain', |chain'|)
  {
    var k := |chain'|;
    assert chain == chain[..k] + chain[k..];
    assert Distinct(chain) && Elems(chain) == Elems(chain[..k]) + Elems(chain[k..]);
    ChainUsed(fat, chain, sclust);
    ChainUsed(fat', chain', sclust');
    forall c | c in Elems(chain[k..])
      ensures c !in Elems(chain')
    {
      var i :| 0 <= i < |chain[k..]| && chain[k..][i] == c;
      assert chain[k + i] == c;
    }
  }

  lemma ChainUsed(fat: seq<nat>, chain: seq<nat>, sclust: nat)
    requires ChainOk(fat, chain, sclust)
    ensures Elems(chain) !! FreeSet(fat)
  {
    forall c | c in chain
      ensures InRange(fat, c) && fat[c] != 0
    {
      var i :| 0 <= i < |chain| && chain[i] == c;
      assert InRange(fat, chain[i]);
      if i < |chain| - 1 {
        assert fat[chain[i]] == chain[i + 1] && InRange(fat, chain[i + 1]);
      }
    }
  }

  /** Bytes in the clusters a file may use. */
  ghost function Room(st: Setting): nat {
    ClusterBytes(st.g) * |st.own|
  }

  /** Those of its chain and the free ones are always as many. */
  lemma OwnCount(st: Setting, fat: seq<nat>, chain: seq<nat>, sclust: nat)
    requires HeapOk(st, fat, chain, sclust)
    ensures |st.own| == |chain| + |FreeSet(fat)|
  {
    ChainUsed(fat, chain, sclust);
    OwnChain(st, fat, chain, sclust);
    DistinctCount(chain);
  }

  // ---- The frozen part -------------------------------------------------------------------------

  lemma ViewOkWrite(st: Setting, view: seq<Sector>, c: nat, s: nat, d: Sector)
    requires SettingOk(st) && ViewOk(st, view) && c in st.own && InCluster(st.g, c, s) && s < |view|
    ensures ViewOk(st, view[s := d]) && At(view[s := d], st.dirSect) == At(view, st.dirSect)
  {
    OwnSector(st, 0xFFFF_FFFF, c, s);
    forall r | r in st.frozen
      ensures r != s
    {
      assert Foreign(st, r);
    }
  }

  lemma ViewOkFat(st: Setting, view: seq<Sector>, view': seq<Sector>, t: Table)
    requires SettingOk(st) && ViewOk(st, view) && t.base == st.g.fatbase && t.size == st.g.fsize
    requires SameOutsideFat(t, view, view')
    ensures ViewOk(st, view') && At(view', st.dirSect) == At(view, st.dirSect)
  {
    forall r | r in st.frozen
      ensures view'[r] == view[r]
    {
      assert Foreign(st, r);
    }
  }

  /** Growing the file by a free cluster. */
  lemma HeapGrow(st: Setting, fat: seq<nat>, chain: seq<nat>, sclust: nat, r: nat, eoc: nat)
    requires HeapOk(st, fat, chain, sclust) && r in FreeSet(fat) && eoc >= |fat|
    ensures HeapOk(st, Linked(fat, if chain == [] then 0 else chain[|chain| - 1], r, eoc), chain + [r],
                   if chain == [] then r else sclust)
  {
    var last := if chain == [] then 0 else chain[|chain| - 1];
    var h := Linked(fat, last, r, eoc);
    if chain == [] {
      assert Chain(h, [r]);
      assert chain + [r] == [r];
    } else {
      ExtendedChain(fat, chain, r, eoc);
      ChainIsUsed(fat, chain, |chain| - 1);
      assert last in chain;
    }
    LinkedTakes(fat, last, r, eoc, 0);
    assert Elems(chain + [r]) == Elems(chain) + {r};
  }

  /** Cutting the file down to its first k clusters. */
  lemma HeapTrim(st: Setting, fat: seq<nat>, chain: seq<nat>, sclust: nat, k: nat, eoc: nat)
    requires SettingOk(st) && HeapOk(st, fat, chain, sclust) && k < |chain| && eoc >= |fat|
    ensures HeapOk(st, Trimmed(fat, chain, k, eoc), chain[..k], if k == 0 then 0 else sclust)
  {
    hide SettingOk, Trimmed, Chain;
    TrimmedPrefix(fat, chain, k, eoc);
    TrimFrees(fat, chain, k, eoc);
  }

  // ---- The image -------------------------------------------------------------------------------

  /** Without unwritten changes the image is what the volume holds. */
  lemma ShowsIsClean(g: Geometry, chain: seq<nat>, image: seq<Sector>, view: seq<Sector>, sect: nat, buf: Sector)
    requires Shows(g, chain, image, view, sect, buf)
    requires sect == 0 || buf == At(view, sect)
    requires sect == 0 ==> forall k :: 0 <= k < |image| ==> SectorAt(g, chain, k) != 0
    ensures Clean(g, chain, image, view)
  {
  }

  lemma CleanShows(g: Geometry, chain: seq<nat>, image: seq<Sector>, view: seq<Sector>, sect: nat, buf: Sector)
    requires Clean(g, chain, image, view)
    requires sect == 0 || buf == At(view, sect)
    requires sect == 0 ==> forall k :: 0 <= k < |image| ==> SectorAt(g, chain, k) != 0
    ensures Shows(g, chain, image, view, sect, buf)
  {
  }

  lemma FlushedClean(g: Geometry, chain: seq<nat>, image: seq<Sector>, view: seq<Sector>, sect: nat, buf: Sector)
    requires Shows(g, chain, image, view, sect, buf) && sect < |view|
    ensures Shows(g, chain, image, view[sect := buf], sect, buf)
  {
  }

  /** Only the sectors of the file matter. */
  lemma ShowsFrame(g: Geometry, chain: seq<nat>, image: seq<Sector>, view: seq<Sector>, view': seq<Sector>,
                   sect: nat, buf: Sector)
    requires Shows(g, chain, image, view, sect, buf) && |view'| == |view|
    requires forall k :: 0 <= k < |image| ==> At(view', SectorAt(g, chain, k)) == At(view, SectorAt(g, chain, k))
    ensures Shows(g, chain, image, view', sect, buf)
  {
  }

  lemma ShowsGrown(g: Geometry, chain: seq<nat>, longer: seq<nat>, image: seq<Sector>, view: seq<Sector>,
                   sect: nat, buf: Sector)
    requires Shows(g, chain, image, view, sect, buf) && chain <= longer && ClustersOk(g, longer)
    ensures Shows(g, longer, image, view, sect, buf)
  {
    forall k | 0 <= k < |image|
      ensures Has(g, longer, k) && image[k] == Slot(g, longer, view, sect, buf, k)
    {
      assert image[k] == Slot(g, chain, view, sect, buf, k);
      SectorAtGrown(g, chain, longer, k);
    }
  }

  /** The first n sectors of the file as the volume holds them. */
  function OnVolume(g: Geometry, chain: seq<nat>, view: seq<Sector>, n: nat): (image: seq<Sector>)
    ensures |image| == n
    ensures forall k :: 0 <= k < n ==> image[k] == At(view, SectorAt(g, chain, k))
  {
    seq(n, k requires 0 <= k < n => At(view, SectorAt(g, chain, k)))
  }

  /** A file just opened, with an invalid buffer, shows what the volume holds. */
  lemma OpenedShows(st: Setting, fat: seq<nat>, chain: seq<nat>, sclust: nat, view: seq<Sector>, size: nat)
    requires SettingOk(st) && HeapOk(st, fat, chain, sclust) && |chain| == ClustersFor(st.g, size)
    ensures Clean(st.g, chain, OnVolume(st.g, chain, view, SectorsFor(size)), view)
    ensures Shows(st.g, chain, OnVolume(st.g, chain, view, SectorsFor(size)), view, 0, ZeroSector())
  {
    forall k | 0 <= k < SectorsFor(size)
      ensures Has(st.g, chain, k) && SectorAt(st.g, chain, k) != 0
    {
      SectorCovered(st.g, size, k);
      OwnFileSector(st, fat, chain, sclust, k);
    }
  }

  /** Moving a clean buffer to another own sector. */
  lemma Reloaded(st: Setting, fat: seq<nat>, chain: seq<nat>, sclust: nat, image: seq<Sector>, view: seq<Sector>,
                 sect: nat, buf: Sector, s: nat)
    requires SettingOk(st) && HeapOk(st, fat, chain, sclust) && s != 0
    requires Shows(st.g, chain, image, view, sect, buf) && (sect == 0 || buf == At(view, sect))
    ensures Shows(st.g, chain, image, view, s, At(view, s))
    ensures Clean(st.g, chain, image, view)
  {
    hide SettingOk, HeapOk;
    forall k | 0 <= k < |image|
      ensures Has(st.g, chain, k) && SectorAt(st.g, chain, k) != 0
    {
      assert image[k] == Slot(st.g, chain, view, sect, buf, k);
      OwnFileSector(st, fat, chain, sclust, k);
    }
    ShowsIsClean(st.g, chain, image, view, sect, buf);
    CleanShows(st.g, chain, image, view, s, At(view, s));
  }

  /** The next cluster of the chain, by the link or from the start. */
  lemma NextInChain(st: Setting, fat: seq<nat>, chain: seq<nat>, sclust: nat, o: nat)
    requires SettingOk(st) && HeapOk(st, fat, chain, sclust) && o % 512 == 0 && ClusterIndex(st.g, o) < |chain|
    ensures o == 0 ==> sclust == chain[ClusterIndex(st.g, o)]
    ensures o > 0 && SectorIndex(st.g, o) == 0 ==>
              ClusterIndex(st.g, o - 1) + 1 == ClusterIndex(st.g, o)
                && fat[chain[ClusterIndex(st.g, o - 1)]] == chain[ClusterIndex(st.g, o)]
    ensures o > 0 && SectorIndex(st.g, o) != 0 ==> ClusterIndex(st.g, o - 1) == ClusterIndex(st.g, o)
    ensures o > 0 ==> ClusterIndex(st.g, o - 1) < |chain| && st.g.ValidCluster(chain[ClusterIndex(st.g, o - 1)])
    ensures st.g.ValidCluster(chain[ClusterIndex(st.g, o)]) && |fat| == st.g.nFatent < 0x1000_0000
  {
    OwnChain(st, fat, chain, sclust);
    if o > 0 {
      IndexAtBoundary(st.g, o);
    }
  }

  /** A run of file sectors inside one cluster is a run of own drive sectors. */
  lemma RunOfFile(st: Setting, fat: seq<nat>, chain: seq<nat>, sclust: nat, winsect: nat, k: nat, cc: nat)
    requires SettingOk(st) && HeapOk(st, fat, chain, sclust) && WindowOk(st, winsect)
    requires Has(st.g, chain, k) && k % st.g.csize + cc <= st.g.csize
    ensures chain[k / st.g.csize] in st.own && st.g.ValidCluster(chain[k / st.g.csize])
    ensures SectorAt(st.g, chain, k) == st.g.FirstSector(chain[k / st.g.csize]) + k % st.g.csize
    ensures 0 < st.g.database <= SectorAt(st.g, chain, k) && SectorAt(st.g, chain, k) + cc <= st.g.total
    ensures !(SectorAt(st.g, chain, k) <= winsect < SectorAt(st.g, chain, k) + cc)
    ensures ClustersOk(st.g, chain) && st.g.Wf()
  {
    hide HeapOk, Chain;
    var c := chain[k / st.g.csize];
    OwnChain(st, fat, chain, sclust);
    ClusterInData(st.g, c);
    var s := SectorAt(st.g, chain, k);
    if s <= winsect < s + cc {
      OwnSector(st, winsect, c, winsect);
    }
  }

  /** Sectors read from the volume, with a dirty buffered one replaced. */
  function Overlay(data: seq<Sector>, s: nat, sect: nat, buf: Sector, dirty: bool): (r: seq<Sector>)
    ensures |r| == |data|
  {
    if dirty && s <= sect < s + |data| then data[sect - s := buf] else data
  }

  /** A run read past the buffer and overlaid with it is that part of the image. */
  lemma RunShown(st: Setting, chain: seq<nat>, image: seq<Sector>, view: seq<Sector>, sect: nat, home: nat, buf: Sector,
                 dirty: bool, data: seq<Sector>, k: nat)
    requires st.g.Wf() && ClustersOk(st.g, chain) && Has(st.g, chain, k) && k % st.g.csize + |data| <= st.g.csize
    requires Shows(st.g, chain, image, view, sect, buf) && BufferOk(st, view, sect, home, buf, dirty)
    requires k + |data| <= |image| && 0 < SectorAt(st.g, chain, k) && SectorAt(st.g, chain, k) + |data| <= |view|
    requires forall i :: 0 <= i < |data| ==> data[i] == view[SectorAt(st.g, chain, k) + i]
    ensures forall i :: 0 <= i < |data| ==>
              Overlay(data, SectorAt(st.g, chain, k), sect, buf, dirty)[i] == image[k + i]
  {
    hide SectorAt, Geometry.Wf, InCluster;
    var s := SectorAt(st.g, chain, k);
    forall i | 0 <= i < |data|
      ensures Overlay(data, s, sect, buf, dirty)[i] == image[k + i]
    {
      SectorAtRun(st.g, chain, k, i);
      assert image[k + i] == Slot(st.g, chain, view, sect, buf, k + i);
    }
  }

  lemma ShownInBuffer(g: Geometry, chain: seq<nat>, image: seq<Sector>, view: seq<Sector>, sect: nat, buf: Sector,
                      k: nat)
    requires Shows(g, chain, image, view, sect, buf) && k < |image| && sect == SectorAt(g, chain, k)
    ensures image[k] == buf
  {
    assert image[k] == Slot(g, chain, view, sect, buf, k);
  }

  /** An operation on the FAT alone leaves the file's data and buffer as they were. */
  lemma FatOpFrame(st: Setting, fat: seq<nat>, chain: seq<nat>, sclust: nat, image: seq<Sector>, view: seq<Sector>,
                   view': seq<Sector>, t: Table, sect: nat, home: nat, buf: Sector, dirty: bool)
    requires SettingOk(st) && HeapOk(st, fat, chain, sclust) && ViewOk(st, view)
    requires Shows(st.g, chain, image, view, sect, buf) && BufferOk(st, view, sect, home, buf, dirty)
    requires t.base == st.g.fatbase && t.size == st.g.fsize && SameOutsideFat(t, view, view')
    ensures ViewOk(st, view') && Shows(st.g, chain, image, view', sect, buf)
    ensures BufferOk(st, view', sect, home, buf, dirty) && At(view', st.dirSect) == At(view, st.dirSect)
  {
    hide HeapOk, InCluster, SectorAt;
    ViewOkFat(st, view, view', t);
    forall k | 0 <= k < |image|
      ensures At(view', SectorAt(st.g, chain, k)) == At(view, SectorAt(st.g, chain, k))
    {
      assert image[k] == Slot(st.g, chain, view, sect, buf, k);
      OwnFileSector(st, fat, chain, sclust, k);
    }
    ShowsFrame(st.g, chain, image, view, view', sect, buf);
    if sect != 0 {
      OwnSector(st, 0xFFFF_FFFF, home, sect);
    }
  }

  /** A chain ends at an end mark. */
  lemma LastEnds(st: Setting, fat: seq<nat>, chain: seq<nat>, sclust: nat)
    requires HeapOk(st, fat, chain, sclust) && chain != []
    ensures st.g.ValidCluster(chain[|chain| - 1]) && |fat| == st.g.nFatent && fat[chain[|chain| - 1]] >= |fat|
    ensures sclust != 0
  {
  }

  /** The file grown by a cluster keeps its contents. */
  lemma GrownShows(st: Setting, fat: seq<nat>, chain: seq<nat>, sclust: nat, image: seq<Sector>, view: seq<Sector>,
                   sect: nat, buf: Sector, r: nat, eoc: nat)
    requires SettingOk(st) && HeapOk(st, fat, chain, sclust) && r in FreeSet(fat) && eoc >= |fat|
    requires Shows(st.g, chain, image, view, sect, buf)
    ensures HeapOk(st, Linked(fat, if chain == [] then 0 else chain[|chain| - 1], r, eoc), chain + [r],
                   if sclust == 0 then r else sclust)
    ensures Shows(st.g, chain + [r], image, view, sect, buf)
  {
    hide SettingOk, Shows, Linked, Chain;
    OwnChain(st, fat, chain, sclust);
    HeapGrow(st, fat, chain, sclust, r, eoc);
    OwnChain(st, Linked(fat, if chain == [] then 0 else chain[|chain| - 1], r, eoc), chain + [r],
      if sclust == 0 then r else sclust);
    ShowsGrown(st.g, chain, chain + [r], image, view, sect, buf);
  }

  /** Inside the chain the link leads to the next cluster. */
  lemma LinkInside(st: Setting, fat: seq<nat>, chain: seq<nat>, sclust: nat, i: nat)
    requires HeapOk(st, fat, chain, sclust) && i + 1 < |chain|
    ensures st.g.ValidCluster(chain[i]) && |fat| == st.g.nFatent && fat[chain[i]] == chain[i + 1]
    ensures st.g.ValidCluster(chain[i + 1])
  {
    assert InRange(fat, chain[i]) && InRange(fat, chain[i + 1]);
  }

  /** Clusters needed to reach the byte at the cursor, which starts a sector. */
  lemma SizeAtCursor(g: Geometry, fptr: nat, objsize: nat)
    requires g.csize > 0 && fptr % 512 == 0 && fptr <= objsize
    ensures fptr < objsize ==> ClusterIndex(g, fptr) < ClustersFor(g, objsize)
    ensures fptr == objsize && SectorIndex(g, fptr) != 0 ==> ClustersFor(g, fptr + 1) == ClustersFor(g, objsize)
    ensures fptr == objsize && SectorIndex(g, fptr) == 0 ==>
              ClusterIndex(g, fptr) == ClustersFor(g, objsize)
                && ClustersFor(g, fptr + 1) == ClustersFor(g, objsize) + 1
    ensures fptr > 0 && SectorIndex(g, fptr) != 0 ==> ClusterIndex(g, fptr) == ClusterIndex(g, fptr - 1)
    ensures fptr > 0 && SectorIndex(g, fptr) == 0 ==> ClusterIndex(g, fptr) == ClusterIndex(g, fptr - 1) + 1
    ensures fptr == 0 ==> ClusterIndex(g, fptr) == 0 && SectorIndex(g, fptr) == 0
  {
    if fptr < objsize {
      IndexMono(g, fptr, objsize - 1);
    }
    if fptr > 0 {
      IndexAtBoundary(g, fptr);
    } else {
      DivIs(0, 0, g.csize);
    }
  }

  /** Writing from the cursor up to e inside its cluster needs no further cluster. */
  lemma SizeAfterWrite(g: Geometry, objsize: nat, fptr: nat, e: nat)
    requires g.csize > 0 && fptr < e && ClusterIndex(g, e - 1) == ClusterIndex(g, fptr)
    ensures ClustersFor(g, if objsize < e then e else objsize) ==
            ClustersFor(g, if objsize < fptr + 1 then fptr + 1 else objsize)
  {
    if fptr + 1 <= objsize < e {
      IndexMono(g, fptr, objsize - 1);
      IndexMono(g, objsize - 1, e - 1);
    }
  }

  // ---- Writing ---------------------------------------------------------------------------------

  lemma ViewOkRun(st: Setting, view: seq<Sector>, view': seq<Sector>, c: nat, s: nat, n: nat)
    requires SettingOk(st) && ViewOk(st, view) && c in st.own && SameOutside(view, view', s, n)
    requires st.g.FirstSector(c) <= s && s + n <= st.g.FirstSector(c) + st.g.csize && c >= 2
    ensures ViewOk(st, view') && At(view', st.dirSect) == At(view, st.dirSect)
  {
    if s <= st.dirSect < s + n {
      OwnSector(st, 0xFFFF_FFFF, c, st.dirSect);
    }
    forall r | r in st.frozen
      ensures view'[r] == view[r]
    {
      assert Foreign(st, r);
      assert !InCluster(st.g, c, r);
    }
  }

  /** File sector j is outside the run that starts at sector k. */
  lemma OutsideRun(g: Geometry, chain: seq<nat>, k: nat, n: nat, j: nat)
    requires g.Wf() && ClustersOk(g, chain) && Distinct(chain) && Has(g, chain, k) && Has(g, chain, j)
    requires k % g.csize + n <= g.csize && !(k <= j < k + n)
    ensures !(SectorAt(g, chain, k) <= SectorAt(g, chain, j) < SectorAt(g, chain, k) + n)
  {
    hide SectorAt, Geometry.Wf, Distinct, ClustersOk;
    var s, r := SectorAt(g, chain, k), SectorAt(g, chain, j);
    if s <= r < s + n {
      SectorAtRun(g, chain, k, r - s);
      SectorAtInjective(g, chain, j, k + (r - s));
    }
  }

  /** Whole sectors written past a clean buffer, which is refilled if it lies in the run. */
  lemma RunWritten(g: Geometry, chain: seq<nat>, image: seq<Sector>, view: seq<Sector>, view': seq<Sector>,
                   sect: nat, buf: Sector, k: nat, part: seq<Sector>)
    requires g.Wf() && ClustersOk(g, chain) && Distinct(chain) && Has(g, chain, k) && k % g.csize + |part| <= g.csize
    requires Clean(g, chain, image, view) && k <= |image| && (sect == 0 || buf == At(view, sect))
    requires 0 < SectorAt(g, chain, k) && SectorAt(g, chain, k) + |part| <= |view|
    requires SameOutside(view, view', SectorAt(g, chain, k), |part|)
    requires forall i :: 0 <= i < |part| ==> part[i] == view'[SectorAt(g, chain, k) + i]
    ensures Clean(g, chain, Spliced(image, k, part), view')
    ensures var s := SectorAt(g, chain, k);
            sect == 0 || (if s <= sect < s + |part| then part[sect - s] else buf) == At(view', sect)
  {
    hide SectorAt, Geometry.Wf, Distinct, ClustersOk;
    var s := SectorAt(g, chain, k);
    var after := Spliced(image, k, part);
    forall j | 0 <= j < |after|
      ensures Has(g, chain, j) && after[j] == At(view', SectorAt(g, chain, j))
    {
      if k <= j < k + |part| {
        SectorAtRun(g, chain, k, j - k);
        assert part[j - k] == view'[s + (j - k)];
      } else {
        assert Has(g, chain, j) && image[j] == At(view, SectorAt(g, chain, j));
        OutsideRun(g, chain, k, |part|, j);
      }
    }
  }

  /** All of the image but sector k is what the volume holds; sector k, if there is one, is in the buffer. */
  ghost predicate Poised(g: Geometry, chain: seq<nat>, image: seq<Sector>, view: seq<Sector>, buf: Sector, k: nat) {
    && k <= |image|
    && (k < |image| ==> image[k] == buf)
    && forall j :: 0 <= j < |image| && j != k ==> Has(g, chain, j) && image[j] == At(view, SectorAt(g, chain, j))
  }

  lemma ShowsPoised(g: Geometry, chain: seq<nat>, image: seq<Sector>, view: seq<Sector>, sect: nat, buf: Sector, k: nat)
    requires g.Wf() && ClustersOk(g, chain) && Distinct(chain) && Has(g, chain, k) && k <= |image|
    requires Shows(g, chain, image, view, sect, buf) && sect == SectorAt(g, chain, k)
    ensures Poised(g, chain, image, view, buf, k)
  {
    hide SectorAt, Geometry.Wf, Distinct, ClustersOk;
    forall j | 0 <= j < |image|
      ensures Has(g, chain, j) && image[j] == if j == k then buf else At(view, SectorAt(g, chain, j))
    {
      assert image[j] == Slot(g, chain, view, sect, buf, j);
      if SectorAt(g, chain, j) == sect {
        SectorAtInjective(g, chain, j, k);
      }
    }
  }

  lemma CleanPoised(g: Geometry, chain: seq<nat>, image: seq<Sector>, view: seq<Sector>, buf: Sector, k: nat)
    requires Clean(g, chain, image, view) && k <= |image| && (k < |image| ==> buf == At(view, SectorAt(g, chain, k)))
    ensures Poised(g, chain, image, view, buf, k)
  {
  }

  /** Changing the buffered sector. */
  lemma PartWritten(g: Geometry, chain: seq<nat>, image: seq<Sector>, view: seq<Sector>, buf: Sector, k: nat, b: Sector)
    requires g.Wf() && ClustersOk(g, chain) && Distinct(chain) && Has(g, chain, k)
    requires Poised(g, chain, image, view, buf, k)
    ensures Shows(g, chain, Spliced(image, k, [b]), view, SectorAt(g, chain, k), b)
  {
    hide SectorAt, Geometry.Wf, Distinct, ClustersOk;
    var after := Spliced(image, k, [b]);
    forall j | 0 <= j < |after|
      ensures Has(g, chain, j) && after[j] == Slot(g, chain, view, SectorAt(g, chain, k), b, j)
    {
      if j != k {
        assert Has(g, chain, j) && image[j] == At(view, SectorAt(g, chain, j));
        if SectorAt(g, chain, j) == SectorAt(g, chain, k) {
          SectorAtInjective(g, chain, j, k);
        }
      }
    }
  }

  /** A clean image shows through a clean buffer. */
  lemma FreshShows(st: Setting, fat: seq<nat>, chain: seq<nat>, sclust: nat, image: seq<Sector>, view: seq<Sector>,
                   sect: nat, buf: Sector)
    requires SettingOk(st) && HeapOk(st, fat, chain, sclust)
    requires Clean(st.g, chain, image, view) && (sect == 0 || buf == At(view, sect))
    ensures Shows(st.g, chain, image, view, sect, buf)
  {
    hide SettingOk, HeapOk, SectorAt;
    forall k | 0 <= k < |image|
      ensures SectorAt(st.g, chain, k) != 0
    {
      assert image[k] == At(view, SectorAt(st.g, chain, k));
      OwnFileSector(st, fat, chain, sclust, k);
    }
    CleanShows(st.g, chain, image, view, sect, buf);
  }

  /** The buffer after whole sectors were written at s. */
  function Refilled(sect: nat, buf: Sector, s: nat, part: seq<Sector>): Sector {
    if s <= sect < s + |part| then part[sect - s] else buf
  }

  /** Whole sectors written at file sector k, from a clean state to a clean state. */
  lemma WholeWritten(st: Setting, fat: seq<nat>, chain: seq<nat>, sclust: nat, winsect: nat, image: seq<Sector>,
                     view: seq<Sector>, view': seq<Sector>, sect: nat, home: nat, buf: Sector, k: nat,
                       part: seq<Sector>)
    requires SettingOk(st) && HeapOk(st, fat, chain, sclust) && ViewOk(st, view) && WindowOk(st, winsect)
    requires Shows(st.g, chain, image, view, sect, buf) && BufferOk(st, view, sect, home, buf, false)
    requires Has(st.g, chain, k) && k % st.g.csize + |part| <= st.g.csize && k <= |image|
    requires SameOutside(view, view', SectorAt(st.g, chain, k), |part|)
    requires SectorAt(st.g, chain, k) + |part| <= |view| == |view'|
    requires forall i :: 0 <= i < |part| ==> part[i] == view'[SectorAt(st.g, chain, k) + i]
    ensures ViewOk(st, view') && At(view', st.dirSect) == At(view, st.dirSect)
    ensures Shows(st.g, chain, Spliced(image, k, part), view', sect,
            Refilled(sect, buf, SectorAt(st.g, chain, k), part))
    ensures BufferOk(st, view', sect, home, Refilled(sect, buf, SectorAt(st.g, chain, k), part), false)
  {
    hide SettingOk, HeapOk, ViewOk, WindowOk, Shows, Clean, SectorAt, InCluster, Spliced, SameOutside, Distinct,
         ClustersOk, Chain;
    var s := SectorAt(st.g, chain, k);
    RunOfFile(st, fat, chain, sclust, winsect, k, |part|);
    OwnChain(st, fat, chain, sclust);
    Reloaded(st, fat, chain, sclust, image, view, sect, buf, s);
    ViewOkRun(st, view, view', chain[k / st.g.csize], s, |part|);
    RunWritten(st.g, chain, image, view, view', sect, buf, k, part);
    FreshShows(st, fat, chain, sclust, Spliced(image, k, part), view', sect, Refilled(sect, buf, s, part));
  }

  /** Bytes changed in the buffered sector. */
  lemma BufferWritten(st: Setting, fat: seq<nat>, chain: seq<nat>, sclust: nat, image: seq<Sector>, view: seq<Sector>,
                      buf: Sector, k: nat, b: Sector)
    requires SettingOk(st) && HeapOk(st, fat, chain, sclust) && Has(st.g, chain, k)
    requires Poised(st.g, chain, image, view, buf, k)
    ensures Shows(st.g, chain, Spliced(image, k, [b]), view, SectorAt(st.g, chain, k), b)
    ensures BufferOk(st, view, SectorAt(st.g, chain, k), chain[k / st.g.csize], b, true)
  {
    hide HeapOk, Poised, Shows, SectorAt, InCluster, Spliced, Chain, Distinct, ClustersOk;
    OwnChain(st, fat, chain, sclust);
    OwnFileSector(st, fat, chain, sclust, k);
    PartWritten(st.g, chain, image, view, buf, k, b);
  }

  /** A file whose buffer holds sector k is poised to change it. */
  lemma BufferPoised(st: Setting, fat: seq<nat>, chain: seq<nat>, sclust: nat, image: seq<Sector>, view: seq<Sector>,
                     sect: nat, buf: Sector, k: nat)
    requires SettingOk(st) && HeapOk(st, fat, chain, sclust) && Has(st.g, chain, k) && k <= |image|
    requires Shows(st.g, chain, image, view, sect, buf) && sect == SectorAt(st.g, chain, k)
    ensures Poised(st.g, chain, image, view, buf, k)
  {
    hide HeapOk, Poised, Shows, SectorAt, Chain, Distinct, ClustersOk;
    OwnChain(st, fat, chain, sclust);
    ShowsPoised(st.g, chain, image, view, sect, buf, k);
  }

  // ---- Cutting ---------------------------------------------------------------------------------

  /** A shorter file keeps its first clusters and sectors. */
  lemma ShowsCut(st: Setting, chain: seq<nat>, image: seq<Sector>, view: seq<Sector>, sect: nat, buf: Sector, k: nat,
                 size: nat)
    requires Shows(st.g, chain, image, view, sect, buf) && st.g.csize > 0 && ClustersOk(st.g, chain)
    requires k == ClustersFor(st.g, size) && k <= |chain| && SectorsFor(size) <= |image|
    ensures Shows(st.g, chain[..k], image[..SectorsFor(size)], view, sect, buf)
  {
    hide SectorAt;
    forall j | 0 <= j < SectorsFor(size)
      ensures Has(st.g, chain[..k], j) && image[j] == Slot(st.g, chain[..k], view, sect, buf, j)
    {
      assert image[j] == Slot(st.g, chain, view, sect, buf, j);
      SectorCovered(st.g, size, j);
      SectorAtGrown(st.g, chain[..k], chain, j);
    }
  }

  /** The table after removing a file's clusters from position k on, as the engine does it. */
  lemma CutOk(st: Setting, fat: seq<nat>, chain: seq<nat>, sclust: nat, k: nat, eoc: nat, free: nat)
    requires SettingOk(st) && HeapOk(st, fat, chain, sclust) && k < |chain| && eoc >= |fat|
    requires NoOnes(fat) && CountExact(fat, free)
    ensures InRange(fat, chain[k]) && (k > 0 ==> InRange(fat, chain[k - 1]) && chain[k - 1] != 0)
    ensures var f := if k == 0 then fat else fat[chain[k - 1] := eoc];
            Released(f, chain[k]) == Walk(Trimmed(fat, chain, k, eoc), true) && CountExact(f, free)
    ensures HeapOk(st, Trimmed(fat, chain, k, eoc), chain[..k], if k == 0 then 0 else sclust)
    ensures NoOnes(Trimmed(fat, chain, k, eoc))
  {
    hide SettingOk, HeapOk, Released, Trimmed, NoOnes;
    OwnChain(st, fat, chain, sclust);
    ReleaseIsTrim(fat, chain, k, eoc);
    HeapTrim(st, fat, chain, sclust, k, eoc);
    TrimFrees(fat, chain, k, eoc);
    if k > 0 {
      ChainIsUsed(fat, chain, k - 1);
      FreeAfterRelink(fat, chain[k - 1], eoc);
    }
  }

  // ---- Growing by a seek -----------------------------------------------------------------------

  /** The image taken on to n sectors with whatever the clusters hold. */
  function TakenOn(g: Geometry, chain: seq<nat>, image: seq<Sector>, view: seq<Sector>, sect: nat, buf: Sector,
                   n: nat): (r: seq<Sector>)
    requires |image| <= n
    ensures |r| == n && image <= r
  {
    seq(n, k requires 0 <= k < n => if k < |image| then image[k] else Slot(g, chain, view, sect, buf, k))
  }

  lemma TakenOnShows(st: Setting, chain: seq<nat>, image: seq<Sector>, view: seq<Sector>, sect: nat, buf: Sector,
                     size: nat)
    requires Shows(st.g, chain, image, view, sect, buf) && st.g.csize > 0
    requires ClustersFor(st.g, size) <= |chain| && |image| <= SectorsFor(size)
    ensures Shows(st.g, chain, TakenOn(st.g, chain, image, view, sect, buf, SectorsFor(size)), view, sect, buf)
  {
    hide Slot;
    forall k | 0 <= k < SectorsFor(size)
      ensures Has(st.g, chain, k)
    {
      SectorCovered(st.g, size, k);
    }
  }

  /** Clusters needed once the cursor stands rest bytes into cluster i. */
  lemma PlacedSize(g: Geometry, objsize: nat, i: nat, rest: nat)
    requires g.csize > 0 && 0 < rest <= ClusterBytes(g)
    ensures ClusterIndex(g, ClusterBytes(g) * i + rest - 1) == i
    ensures var p := ClusterBytes(g) * i + rest;
            var need := ClustersFor(g, objsize);
            ClustersFor(g, if objsize < p then p else objsize) == if need < i + 1 then i + 1 else need
  {
    var p := ClusterBytes(g) * i + rest;
    IndexInCluster(g, i, rest);
    if objsize >= p {
      IndexMono(g, p - 1, objsize - 1);
    } else if objsize > 0 {
      IndexMono(g, objsize - 1, p - 1);
    }
  }

  lemma PlacedSector(g: Geometry, chain: seq<nat>, i: nat, rest: nat)
    requires g.csize > 0 && rest < ClusterBytes(g) && i < |chain| && chain[i] >= 2
    ensures Has(g, chain, (ClusterBytes(g) * i + rest) / 512)
    ensures SectorAt(g, chain, (ClusterBytes(g) * i + rest) / 512) == g.FirstSector(chain[i]) + rest / 512
  {
    SectorInCluster(g, i, rest);
  }

  lemma ClustersOkAt(g: Geometry, chain: seq<nat>, i: nat)
    requires ClustersOk(g, chain) && i < |chain|
    ensures g.ValidCluster(chain[i]) && chain[i] >= 2
  {
  }

  lemma WholeClusters(g: Geometry, i: nat, rest: nat)
    ensures (ClusterBytes(g) * i + rest) % 512 == rest % 512
    ensures rest % 512 != 0 ==> rest != ClusterBytes(g)
  {
    assert ClusterBytes(g) * i == 512 * (g.csize * i);
  }

  // ---- Synchronising ---------------------------------------------------------------------------

  /** Rewriting the directory sector touches neither the file's data nor the frozen part. */
  lemma DirWritten(st: Setting, fat: seq<nat>, chain: seq<nat>, sclust: nat, image: seq<Sector>, view: seq<Sector>,
                   d: Sector, sect: nat, home: nat, buf: Sector, dirty: bool)
    requires SettingOk(st) && HeapOk(st, fat, chain, sclust) && ViewOk(st, view)
    requires Shows(st.g, chain, image, view, sect, buf) && BufferOk(st, view, sect, home, buf, dirty)
    ensures st.dirSect < |view| && At(view[st.dirSect := d], st.dirSect) == d
    ensures ViewOk(st, view[st.dirSect := d]) && Shows(st.g, chain, image, view[st.dirSect := d], sect, buf)
    ensures BufferOk(st, view[st.dirSect := d], sect, home, buf, dirty)
  {
    hide HeapOk, InCluster, SectorAt;
    var view' := view[st.dirSect := d];
    forall k | 0 <= k < |image|
      ensures At(view', SectorAt(st.g, chain, k)) == At(view, SectorAt(st.g, chain, k))
    {
      assert image[k] == Slot(st.g, chain, view, sect, buf, k);
      OwnFileSector(st, fat, chain, sclust, k);
      OwnSector(st, 0xFFFF_FFFF, chain[k / st.g.csize], SectorAt(st.g, chain, k));
    }
    ShowsFrame(st.g, chain, image, view, view', sect, buf);
    if sect != 0 {
      OwnSector(st, 0xFFFF_FFFF, home, sect);
    }
    forall r | r in st.frozen
      ensures view'[r] == view[r]
    {
      assert Foreign(st, r);
    }
  }

  /** Data sectors are checked, so a settled disk holds the image too. */
  lemma CleanOnDisk(st: Setting, fat: seq<nat>, chain: seq<nat>, sclust: nat, image: seq<Sector>, view: seq<Sector>,
                    disk: seq<Sector>)
    requires SettingOk(st) && HeapOk(st, fat, chain, sclust) && |view| == |disk| == st.g.total
    requires Clean(st.g, chain, image, view)
    requires forall s :: 0 <= s < |disk| && !st.g.Unchecked(s) ==> disk[s] == view[s]
    ensures Clean(st.g, chain, image, disk)
  {
    hide HeapOk, InCluster, SectorAt;
    forall k | 0 <= k < |image|
      ensures At(disk, SectorAt(st.g, chain, k)) == At(view, SectorAt(st.g, chain, k))
    {
      assert image[k] == At(view, SectorAt(st.g, chain, k));
      OwnFileSector(st, fat, chain, sclust, k);
    }
  }
}
