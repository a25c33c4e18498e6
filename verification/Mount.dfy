/** Finding and mounting a FAT volume on a drive. */
module Mounting {
  import opened Bytes
  import opened VolumeGeometry
  import opened FileLayout
  import opened FormatPlans
  import opened BootSectors
  import opened Drives
  import opened InfoSectors
  import opened Volumes

  const MBR_TABLE: nat := 446
  const SZ_PTE: nat := 16
  const PTE_ST_LBA: nat := 8
  const WORD32: nat := 0x1_0000_0000

  predicate PowerOfTwo(b: nat) {
    b in {1, 2, 4, 8, 16, 32, 64, 128}
  }

  /** The sector starts a FAT volume. Early DOS formats are known by the properness of their fields. */
  predicate LooksLikeFat(d: Bpb) {
    && d.jump in {0xEB, 0xE9, 0xE8}
    && ((d.sign == 0xAA55 && d.tag32)
        || (d.bytsPerSec == 512 && PowerOfTwo(d.secPerClus) && d.rsvd != 0 && 1 <= d.nFats <= 2 && d.rootEnt != 0
            && (d.tot16 >= 128 || d.tot32 >= 0x1_0000) && d.fatSz16 != 0))
  }

  datatype SectorKind = FatVbr | BootSector | NoBootSector | ReadError

  function KindOfSector(b: Sector): SectorKind {
    var d := ReadBpb(b);
    if LooksLikeFat(d) then FatVbr else if d.sign == 0xAA55 then BootSector else NoBootSector
  }

  /** The bytes of a sector that starts a FAT volume: a jump, and the mark of the sector with the name of FAT32, or else
      a sector size of 512, a cluster size that is a power of two, reserved sectors, one or two FATs, a root directory,
      128 sectors or more and a FAT size. */
  ghost predicate StartsFat(b: Sector) {
    && b[0] in {0xE8, 0xE9, 0xEB}
    && ((b[510..512] == [0x55, 0xAA] && b[82..90] == Text("FAT32   "))
        || (b[11..13] == [0x00, 0x02] && b[13] in {1, 2, 4, 8, 16, 32, 64, 128} && b[14..16] != [0, 0]
            && b[16] in {1, 2} && b[17..19] != [0, 0] && b[22..24] != [0, 0]
            && (b[19] >= 128 || b[20] != 0 || b[34] != 0 || b[35] != 0)))
  }

  /** What a sector is, by its bytes. */
  lemma KindIs(b: Sector)
    ensures KindOfSector(b) ==
            if StartsFat(b) then FatVbr else if b[510..512] == [0x55, 0xAA] then BootSector else NoBootSector
  {
    Names();
    PairIs(b, 510, 0x55, 0xAA);
    PairIs(b, 11, 0, 2);
    PairIs(b, 14, 0, 0);
    PairIs(b, 17, 0, 0);
    PairIs(b, 22, 0, 0);
    hide FAT32_TAG, Text;
  }

  lemma PairIs(b: Sector, o: nat, x: byte, y: byte)
    requires o + 2 <= 512
    ensures b[o..o + 2] == [x, y] <==> LdWord(b, o) == x as int + 0x100 * y as int
  {
    assert b[o..o + 2] == [b[o], b[o + 1]];
  }

  /** What mounting derives from a boot sector at sector volbase. */
  datatype MountInfo = MountInfo(kind: FatKind, nFats: nat, csize: nat, nRoot: nat, nFatent: nat, fsize: nat,
                                 volbase: nat, fatbase: nat, database: nat, dirbase: nat)
  {
    function Geo(total: nat): Geometry {
      Geometry(kind, nFats, csize, nFatent, fsize, volbase, fatbase, database, total)
    }
  }

  datatype Analysis = NoFilesystem | FatVolume(info: MountInfo)

  /** 32-bit arithmetic. */
  function Wrap(x: nat): (r: nat)
    ensures x < WORD32 ==> r == x
  {
    x % WORD32
  }

  function FatSize(d: Bpb): nat {
    if d.fatSz16 == 0 then d.fatSz32 else d.fatSz16
  }

  function TotalSectors(d: Bpb): nat {
    if d.tot16 == 0 then d.tot32 else d.tot16
  }

  function FatArea(d: Bpb): nat {
    FatSize(d) * d.nFats
  }

  /** Reserved sectors, FATs and the fixed root directory. */
  function SystemSectors(d: Bpb): nat {
    d.rsvd + FatArea(d) + d.rootEnt / 16
  }

  /** Derive the volume's geometry, in the engine's 32-bit arithmetic. */
  function Analyze(d: Bpb, bsect: nat): Analysis {
    var fsize, tsect := FatSize(d), TotalSectors(d);
    if d.bytsPerSec != 512 || !(1 <= d.nFats <= 2) || !PowerOfTwo(d.secPerClus) || d.rootEnt % 16 != 0 || d.rsvd == 0
    then NoFilesystem
    else
      var fasize := Wrap(FatArea(d));
      var sysect := Wrap(d.rsvd + fasize + d.rootEnt / 16);
      if tsect < sysect then NoFilesystem
      else
        var nclst := (tsect - sysect) / d.secPerClus;
        if nclst == 0 || nclst > MAX_FAT32 then NoFilesystem
        else
          var kind := KindOf(nclst);
          var fatbase, database := Wrap(bsect + d.rsvd), Wrap(bsect + sysect);
          if kind.Fat32? && (d.fsVer != 0 || d.rootEnt != 0) then NoFilesystem
          else if !kind.Fat32? && d.rootEnt == 0 then NoFilesystem
          else if fsize < Sectors(TableBytes(kind, nclst + 2)) then NoFilesystem
          else
            var dirbase := if kind.Fat32? then d.rootClus else Wrap(fatbase + fasize);
            FatVolume(MountInfo(kind, d.nFats, d.secPerClus, d.rootEnt, nclst + 2, fsize, bsect, fatbase, database,
              dirbase))
  }

  /** The fields are as wide as in a boot sector. */
  predicate InFields(d: Bpb) {
    && d.rsvd < 0x1_0000 && d.rootEnt < 0x1_0000 && d.nFats < 0x100 && d.secPerClus < 0x100
    && d.fatSz16 < 0x1_0000 && d.fatSz32 < WORD32 && d.tot16 < 0x1_0000 && d.tot32 < WORD32
  }

  lemma BpbInFields(b: Sector)
    ensures InFields(ReadBpb(b))
  {
    hide LdWord, LdDword;
  }

  /** Whole clusters after a system area of so many sectors, and the sectors they take. */
  function ClustersAfter(d: Bpb, sys: nat): nat
    requires d.secPerClus > 0 && sys <= TotalSectors(d)
  {
    (TotalSectors(d) - sys) / d.secPerClus
  }

  function AreaFor(n: nat, csize: nat): nat {
    csize * n
  }

  /** The system area and the clusters that a boot sector at bsect announces lie on a drive of so many sectors, and a
      volume without a fixed root directory has a sector for its FSInfo. */
  predicate Fitting(d: Bpb, bsect: nat, total: nat)
    requires d.secPerClus > 0
  {
    && SystemSectors(d) <= TotalSectors(d)
    && bsect + SystemSectors(d) + AreaFor(ClustersAfter(d, SystemSectors(d)), d.secPerClus) <= total
    && (d.rootEnt == 0 ==> d.rsvd >= 2)
  }

  /** The FAT of the needed number of sectors has room for every entry. */
  lemma TableRoom(kind: FatKind, n: nat, fsize: nat)
    requires fsize >= Sectors(TableBytes(kind, n))
    ensures kind.Fits(n, fsize)
  {
    SectorsMono(TableBytes(kind, n), TableBytes(kind, n));
    assert TableBytes(kind, n) <= 512 * fsize;
  }

  /** What the analysis of a volume found, sums and products being taken in 32 bits. */
  lemma Analyzed(d: Bpb, bsect: nat)
    requires InFields(d) && Analyze(d, bsect).FatVolume?
    ensures PowerOfTwo(d.secPerClus) && 1 <= d.nFats <= 2 && d.rsvd > 0
    ensures var m, sys := Analyze(d, bsect).info, Wrap(d.rsvd + Wrap(FatArea(d)) + d.rootEnt / 16);
            && sys <= TotalSectors(d)
            && var n := ClustersAfter(d, sys);
               && 0 < n <= m.kind.MaxClusters() && m.nFatent == n + 2 && m.nFats == d.nFats && m.csize == d.secPerClus
               && m.volbase == bsect && m.fatbase == Wrap(bsect + d.rsvd) && m.database == Wrap(bsect + sys)
                 && m.fsize == FatSize(d)
               && m.fsize >= Sectors(TableBytes(m.kind, m.nFatent)) && (m.kind.Fat32? <==> d.rootEnt == 0)
  {
    hide Sectors, TableBytes, Wrap, FatArea, FatSize, TotalSectors;
  }

  lemma AreaOf(d: Bpb)
    requires 1 <= d.nFats <= 2
    ensures FatArea(d) == if d.nFats == 2 then 2 * FatSize(d) else FatSize(d)
  {
    hide FatSize;
  }

  lemma NoWrap(x: nat)
    requires x < WORD32
    ensures Wrap(x) == x
  {
  }

  /** A sum that wraps comes out below the last term that made it wrap. */
  lemma WrapsLow(a: nat, x: nat)
    requires a < WORD32 <= a + x && x < WORD32
    ensures Wrap(a + x) == a + x - WORD32 < x
  {
  }

  lemma WrapTwice(a: nat, x: nat)
    ensures Wrap(a + Wrap(x)) == Wrap(a + x)
  {
  }

  /** Whatever a boot sector says, a volume that mounts has its regions in order, a FAT large enough for its clusters
      and every cluster on the drive, if and only if it fits as announced. */
  lemma MountedIsWf(d: Bpb, bsect: nat, total: nat)
    requires InFields(d) && bsect < WORD32 && total < WORD32 && Analyze(d, bsect).FatVolume?
    ensures d.secPerClus > 0
    ensures Analyze(d, bsect).info.Geo(total).Wf() <==> Fitting(d, bsect, total)
  {
    hide Analyze, Sectors, TableBytes, FatKind.Fits, FatKind.MaxClusters, Wrap, Fitting, Geometry.Wf;
    Analyzed(d, bsect);
    if Fitting(d, bsect, total) {
      FittingIsWf(d, bsect, total);
    }
    if Analyze(d, bsect).info.Geo(total).Wf() {
      WfIsFitting(d, bsect, total);
    }
  }

  lemma RegionsInOrder(g: Geometry, n: nat)
    requires 1 <= g.nFats <= 2 && g.nFatent == n + 2 && 0 < n <= g.kind.MaxClusters() && g.kind.Fits(g.nFatent, g.fsize)
    requires g.volbase + (if g.kind.Fat32? then 1 else 0) < g.fatbase && PowerOfTwo(g.csize)
    requires g.fatbase + (if g.nFats == 2 then 2 * g.fsize else g.fsize) <= g.database
             && g.database + AreaFor(n, g.csize) <= g.total < WORD32
    ensures g.Wf()
  {
    hide FatKind.Fits, FatKind.MaxClusters;
    assert g.nFatent - 2 == n;
  }

  /** So it is with every sector a volume is mounted from. */
  lemma MountedSectorIsWf(b: Sector, bsect: nat, total: nat)
    requires bsect < WORD32 && total < WORD32 && Analyze(ReadBpb(b), bsect).FatVolume?
    ensures ReadBpb(b).secPerClus > 0
    ensures Analyze(ReadBpb(b), bsect).info.Geo(total).Wf() <==> Fitting(ReadBpb(b), bsect, total)
  {
    hide ReadBpb, Analyze, Fitting;
    BpbInFields(b);
    MountedIsWf(ReadBpb(b), bsect, total);
  }

  lemma FittingIsWf(d: Bpb, bsect: nat, total: nat)
    requires InFields(d) && bsect < WORD32 && total < WORD32 && Analyze(d, bsect).FatVolume?
    requires d.secPerClus > 0 && Fitting(d, bsect, total)
    ensures Analyze(d, bsect).info.Geo(total).Wf()
  {
    hide Analyze, Sectors, TableBytes, FatKind.Fits, FatKind.MaxClusters, Wrap, TotalSectors, FatArea, FatSize,
         Geometry.Wf, Geometry.Layout, ClustersAfter, AreaFor;
    Analyzed(d, bsect);
    var m := Analyze(d, bsect).info;
    TableRoom(m.kind, m.nFatent, m.fsize);
    AreaOf(d);
    NoWrap(FatArea(d));
    NoWrap(SystemSectors(d));
    NoWrap(bsect + d.rsvd);
    NoWrap(bsect + SystemSectors(d));
    RegionsInOrder(m.Geo(total), ClustersAfter(d, SystemSectors(d)));
  }

  lemma WfIsFitting(d: Bpb, bsect: nat, total: nat)
    requires InFields(d) && bsect < WORD32 && total < WORD32 && Analyze(d, bsect).FatVolume?
    requires Analyze(d, bsect).info.Geo(total).Wf()
    ensures d.secPerClus > 0 && Fitting(d, bsect, total)
  {
    hide Analyze, Sectors, TableBytes, FatKind.Fits, FatKind.MaxClusters, Wrap, TotalSectors, ClustersAfter;
    Analyzed(d, bsect);
    AreaOf(d);
    NoWrap(FatArea(d));
    if bsect + d.rsvd >= WORD32 {
      WrapsLow(bsect, d.rsvd);
    }
    NoWrap(bsect + d.rsvd);
    var x := bsect + d.rsvd + FatArea(d);
    WrapTwice(bsect, SystemSectors(d));
    if x + d.rootEnt / 16 >= WORD32 {
      WrapsLow(x, d.rootEnt / 16);
      assert bsect + SystemSectors(d) == x + d.rootEnt / 16;
    }
    NoWrap(bsect + SystemSectors(d));
    NoWrap(SystemSectors(d));
  }

  /** Where the regions of a volume lie: each begins where the one before ends, in the sizes the boot sector gives. The
      fixed root directory is behind all FATs; a FAT32 volume has none, but the start cluster of its root. */
  ghost predicate LaidOut(d: Bpb, bsect: nat, m: MountInfo) {
    && m.volbase == bsect && m.fatbase == m.volbase + d.rsvd
    && m.nFats == d.nFats && m.fsize == (if d.fatSz16 != 0 then d.fatSz16 else d.fatSz32)
    && m.csize == d.secPerClus && m.nRoot == d.rootEnt
    && if m.kind.Fat32? then m.dirbase == d.rootClus && m.database == m.fatbase + AreaFor(m.nFats, m.fsize)
       else m.dirbase == m.fatbase + AreaFor(m.nFats, m.fsize) && m.database == m.dirbase + m.nRoot / 16
  }

  /** Every volume that mounts and fits as announced is laid out so. */
  lemma MountedRegions(d: Bpb, bsect: nat, total: nat)
    requires InFields(d) && bsect < WORD32 && total < WORD32 && Analyze(d, bsect).FatVolume?
    ensures d.secPerClus > 0
    ensures Fitting(d, bsect, total) ==> LaidOut(d, bsect, Analyze(d, bsect).info)
  {
    hide Analyze, Sectors, TableBytes, Wrap, FatArea, ClustersAfter, AreaFor;
    Analyzed(d, bsect);
    AnalyzedRoot(d, bsect);
    if Fitting(d, bsect, total) {
      AreaOf(d);
      AreaTwice(d.nFats, FatSize(d));
      NoWrap(FatArea(d));
      NoWrap(SystemSectors(d));
      NoWrap(bsect + d.rsvd);
      NoWrap(bsect + SystemSectors(d));
      NoWrap(bsect + d.rsvd + FatArea(d));
    }
  }

  lemma AreaTwice(n: nat, size: nat)
    requires 1 <= n <= 2
    ensures AreaFor(n, size) == if n == 2 then 2 * size else size
  {
  }

  lemma AnalyzedRoot(d: Bpb, bsect: nat)
    requires InFields(d) && Analyze(d, bsect).FatVolume?
    ensures var m := Analyze(d, bsect).info;
            && m.nRoot == d.rootEnt && (m.kind.Fat32? ==> d.rootEnt == 0)
            && m.dirbase == if m.kind.Fat32? then d.rootClus else Wrap(Wrap(bsect + d.rsvd) + Wrap(FatArea(d)))
  {
    hide Sectors, TableBytes, Wrap, FatArea, FatSize, TotalSectors;
  }

  /** Bits of a FAT entry of a volume with n clusters. */
  function EntryBits(n: nat): nat {
    if n <= 4085 then 12 else if n <= 65525 then 16 else 32
  }

  /** A FAT volume of n clusters as the engine takes it: n whole clusters follow the system area, a FAT has room for
      their entries and two more, and there is a fixed root directory if and only if an entry has not 32 bits. */
  ghost predicate HasClusters(d: Bpb, n: nat)
    requires SystemSectors(d) <= TotalSectors(d)
  {
    && 0 < n <= 0x0FFF_FFF5
    && AreaFor(n, d.secPerClus) <= TotalSectors(d) - SystemSectors(d) < AreaFor(n + 1, d.secPerClus)
    && EntryBits(n) * (n + 2) <= 512 * 8 * FatSize(d)
    && if EntryBits(n) == 32 then d.rootEnt == 0 && d.fsVer == 0 else d.rootEnt > 0
  }

  ghost predicate IsFatVolume(d: Bpb) {
    && d.bytsPerSec == 512 && (d.nFats == 1 || d.nFats == 2) && d.secPerClus in {1, 2, 4, 8, 16, 32, 64, 128}
    && d.rsvd > 0 && d.rootEnt % 16 == 0 && SystemSectors(d) <= TotalSectors(d)
    && exists n: nat :: HasClusters(d, n)
  }

  lemma ClusterCount(total: nat, csize: nat, n: nat)
    requires csize > 0 && AreaFor(n, csize) <= total < AreaFor(n + 1, csize)
    ensures total / csize == n
  {
    DivIs(total, n, csize);
  }

  lemma CountsClusters(total: nat, csize: nat)
    requires csize > 0
    ensures AreaFor(total / csize, csize) <= total < AreaFor(total / csize + 1, csize)
  {
    assert total == csize * (total / csize) + total % csize;
  }

  lemma EntriesFit(n: nat, fsize: nat)
    ensures fsize >= Sectors(TableBytes(KindOf(n), n + 2)) <==> EntryBits(n) * (n + 2) <= 512 * 8 * fsize
  {
  }

  /** The checks of the analysis that are left when nothing wraps around. */
  ghost predicate Passes(d: Bpb) {
    && d.bytsPerSec == 512 && 1 <= d.nFats <= 2 && PowerOfTwo(d.secPerClus) && d.rootEnt % 16 == 0 && d.rsvd != 0
    && SystemSectors(d) <= TotalSectors(d)
    && var n := ClustersAfter(d, SystemSectors(d));
       && 0 < n <= MAX_FAT32 && (if KindOf(n).Fat32? then d.fsVer == 0 && d.rootEnt == 0 else d.rootEnt != 0)
       && FatSize(d) >= Sectors(TableBytes(KindOf(n), n + 2))
  }

  lemma PassesIs(d: Bpb, bsect: nat)
    requires SystemSectors(d) < WORD32
    ensures Analyze(d, bsect).FatVolume? <==> Passes(d)
    ensures Passes(d) ==>
              var m, n := Analyze(d, bsect).info, ClustersAfter(d, SystemSectors(d));
              m.nFatent == n + 2 && m.kind == KindOf(n)
  {
    hide Sectors, TableBytes, FatSize, TotalSectors, KindOf;
    SystemNoWrap(d);
    hide Wrap, FatArea, SystemSectors;
  }

  lemma CountIs(d: Bpb)
    requires SystemSectors(d) <= TotalSectors(d) && d.secPerClus > 0
    ensures var n := ClustersAfter(d, SystemSectors(d));
            && (HasClusters(d, n) <==>
                && 0 < n <= MAX_FAT32 && (if KindOf(n).Fat32? then d.fsVer == 0 && d.rootEnt == 0 else d.rootEnt != 0)
                && FatSize(d) >= Sectors(TableBytes(KindOf(n), n + 2)))
            && forall k: nat :: HasClusters(d, k) ==> k == n
  {
    hide Sectors, TableBytes, FatSize, TotalSectors, FatArea, SystemSectors;
    var left := TotalSectors(d) - SystemSectors(d);
    var n := ClustersAfter(d, SystemSectors(d));
    CountsClusters(left, d.secPerClus);
    EntriesFit(n, FatSize(d));
    hide AreaFor;
    forall k: nat | HasClusters(d, k)
      ensures k == n
    {
      ClusterCount(left, d.secPerClus, k);
    }
  }

  /** A boot sector whose system area does not wrap around mounts if and only if it is of such a volume, which has
      those clusters and that sub-type. */
  lemma MountsExactly(d: Bpb, bsect: nat)
    requires SystemSectors(d) < WORD32
    ensures Analyze(d, bsect).FatVolume? <==> IsFatVolume(d)
    ensures Analyze(d, bsect).FatVolume? ==>
              var m := Analyze(d, bsect).info;
              SystemSectors(d) <= TotalSectors(d) && m.nFatent >= 2 && HasClusters(d, m.nFatent - 2)
              && m.kind == match EntryBits(m.nFatent - 2) case 12 => Fat12 case 16 => Fat16 case _ => Fat32
  {
    hide Analyze, Sectors, TableBytes, FatSize, TotalSectors, SystemSectors, HasClusters, ClustersAfter;
    PassesIs(d, bsect);
    if SystemSectors(d) <= TotalSectors(d) && d.secPerClus > 0 {
      CountIs(d);
    }
  }

  lemma SystemNoWrap(d: Bpb)
    requires SystemSectors(d) < WORD32
    ensures Wrap(FatArea(d)) == FatArea(d) && Wrap(d.rsvd + FatArea(d) + d.rootEnt / 16) == SystemSectors(d)
  {
  }

  /** An ordinary FAT16 volume of two FATs at sector 63: its root directory is behind both. */
  lemma TwoFats()
    ensures var d := Bpb(0xEB, 0xAA55, false, 512, 4, 1, 2, 512, 32000, 32, 0, 0, 0, 0, 0);
            Analyze(d, 63) == FatVolume(MountInfo(Fat16, 2, 4, 512, 7975 + 2, 32, 63, 64, 160, 128))
  {
  }

  /** A boot sector whose FAT size wraps around when it is doubled mounts with its FAT beyond its data. */
  lemma WrappedFatMounts(total: nat)
    ensures var d := Bpb(0xEB, 0xAA55, true, 512, 1, 32, 2, 0, 0, 0, 100000, 0x8000_0001, 0, 2, 1);
            && InFields(d) && LooksLikeFat(d) && Analyze(d, 0).FatVolume?
            && var g := Analyze(d, 0).info.Geo(total); !g.Layout() && g.database < g.fatbase + g.fsize
  {
  }

  /** A FAT32 boot sector with one reserved sector mounts with its FSInfo sector in the FAT. */
  lemma FsInfoInFat(total: nat)
    ensures var d := Bpb(0xEB, 0xAA55, true, 512, 1, 1, 1, 0, 0, 0, 100000, 1000, 0, 2, 1);
            && InFields(d) && LooksLikeFat(d) && Analyze(d, 0).FatVolume?
            && var g := Analyze(d, 0).info.Geo(total); g.kind.Fat32? && g.InFat(g.volbase + 1)
  {
  }

  /** Mounting the boot sector of a planned volume gives back the plan. */
  lemma PlanAnalyzed(d: Bpb, p: Plan, v: nat)
    requires Acceptable(p, v) && MIN_VOLUME <= v && PARTITION + v < WORD32 && Describes(d, p, v)
    ensures LooksLikeFat(d)
    ensures Analyze(d, PARTITION) == FatVolume(InfoOf(p))
    ensures InfoOf(p).Geo(PARTITION + v) == GeometryOf(p, v)
  {
    hide Acceptable, Sectors, TableBytes, Geometry.Wf, KindOf, FatKind.Fits, Wrap;
    PlanMounts(p, v);
    PlanSizes(p, v);
  }

  lemma PlanSizes(p: Plan, v: nat)
    requires Acceptable(p, v)
    ensures PowerOfTwo(p.csize) && p.csize > 0
  {
  }

  function InfoOf(p: Plan): MountInfo {
    MountInfo(p.kind, 1, p.csize, if p.kind.Fat32? then 0 else ROOT_ENTRIES, p.clusters + 2, p.fat, PARTITION,
      p.FatBase(), p.DataBase(), if p.kind.Fat32? then 2 else p.FatBase() + p.fat)
  }

  // ---- On the drive ----------------------------------------------------------------------------

  /** A mounted volume: geometry, allocation hints and the window. */
  datatype Mounted = Mounted(info: MountInfo, fsiEnabled: bool, freeClst: nat, lastClst: nat, win: Sector, winsect: nat)

  datatype MountResult = Mount(m: Mounted) | MountNoFilesystem | MountDiskErr

  /** Load a sector, unless its number is the mark of an invalid window, and tell what it is. */
  method CheckFs(drive: Drive, sect: nat, win0: Sector) returns (kind: SectorKind, win: Sector)
    ensures drive.reliable && sect < |drive.disk| < WORD32 ==> win == drive.disk[sect] && kind == KindOfSector(win)
    ensures |drive.disk| <= sect && sect != NO_WINDOW ==> kind.ReadError?
  {
    win := win0;
    if sect != NO_WINDOW {
      var ok: bool;
      ok, win := drive.Read(sect);
      if !ok {
        return ReadError, win;
      }
    }
    kind := KindOfSector(win);
  }

  /** Partition entry i of the boot record. */
  function StartLba(b: Sector, i: nat): nat
    requires i < 4
  {
    LdDword(b, MBR_TABLE + i * SZ_PTE + PTE_ST_LBA)
  }

  /** The four entries of the partition table, at byte 446 of the boot record. */
  lemma PartitionStarts(b: Sector)
    ensures StartLba(b, 0) == LdDword(b, 454) && StartLba(b, 1) == LdDword(b, 470)
    ensures StartLba(b, 2) == LdDword(b, 486) && StartLba(b, 3) == LdDword(b, 502)
  {
  }

  /** A partition that is not there, is not on the drive or starts with no FAT boot sector. An entry that names the mark
      of an invalid window is left aside: the engine then looks at whatever the window held. */
  ghost predicate NotFat(disk: seq<Sector>, s: nat) {
    s == 0 || if s < |disk| then !KindOfSector(disk[s]).FatVbr? else s != NO_WINDOW
  }

  /** So are the first n partitions. */
  ghost predicate NoneBefore(disk: seq<Sector>, n: nat)
    requires disk != [] && n <= 4
  {
    forall j :: 0 <= j < n ==> NotFat(disk, StartLba(disk[0], j))
  }

  /** Partition i, at sector s, is the first that holds a FAT volume. */
  ghost predicate FirstPartition(disk: seq<Sector>, i: nat, s: nat)
    requires disk != [] && i < 4
  {
    StartLba(disk[0], i) == s != 0 && s < |disk| && KindOfSector(disk[s]).FatVbr? && NoneBefore(disk, i)
  }

  /** The FAT volume of the drive starts at sector s: the whole drive is one, or the first partition that is one. */
  ghost predicate VolumeAt(disk: seq<Sector>, s: nat) {
    && s + 1 < |disk| < WORD32
    && if s == 0 then KindOfSector(disk[0]).FatVbr?
       else KindOfSector(disk[0]).BootSector? && exists i: nat :: i < 4 && FirstPartition(disk, i, s)
  }

  /** There is none. */
  ghost predicate NoVolume(disk: seq<Sector>) {
    && 0 < |disk| < WORD32
    && (KindOfSector(disk[0]).NoBootSector? || (KindOfSector(disk[0]).BootSector? && NoneBefore(disk, 4)))
  }

  /** Find a FAT volume: the whole drive, or the first partition that holds one. */
  method FindVolume(drive: Drive) returns (kind: SectorKind, win: Sector, bsect: nat)
    ensures forall s: nat :: drive.reliable && VolumeAt(drive.disk, s) ==>
            kind.FatVbr? && bsect == s && win == drive.disk[s]
    ensures drive.reliable && NoVolume(drive.disk) ==> !kind.FatVbr?
  {
    hide KindOfSector, StartLba, NotFat;
    bsect := 0;
    kind, win := CheckFs(drive, 0, ZeroSector());
    if kind.BootSector? {
      var table := win;
      var i: nat := 0;
      kind := NoBootSector;
      ghost var known := drive.reliable && 0 < |drive.disk| < WORD32;
      while i < 4 && !kind.FatVbr?
        invariant i <= 4 && (known ==> table == drive.disk[0] && KindOfSector(table).BootSector?)
        invariant known && NoneBefore(drive.disk, i) ==> !kind.FatVbr?
        invariant forall k: nat, s: nat :: known && k < i && FirstPartition(drive.disk, k, s) ==>
                    kind.FatVbr? && bsect == s && win == drive.disk[s]
      {
        bsect := StartLba(table, i);
        kind := NoBootSector;
        if bsect != 0 {
          kind, win := CheckFs(drive, bsect, win);
        }
        if known {
          NextPartition(drive.disk, i);
        }
        i := i + 1;
      }
      forall s: nat | known && VolumeAt(drive.disk, s)
        ensures kind.FatVbr? && bsect == s && win == drive.disk[s]
      {
        var k: nat :| k < 4 && FirstPartition(drive.disk, k, s);
      }
    }
  }

  /** Partition i is skipped if it holds no FAT volume. */
  lemma NextPartition(disk: seq<Sector>, i: nat)
    requires 0 < |disk| < WORD32 && i < 4
    ensures NoneBefore(disk, i + 1) <==> NoneBefore(disk, i) && NotFat(disk, StartLba(disk[0], i))
    ensures var s := StartLba(disk[0], i);
            && (NotFat(disk, s) && s != 0 ==> if s < |disk| then !KindOfSector(disk[s]).FatVbr? else s != NO_WINDOW)
            && (s < |disk| ==> s != NO_WINDOW)
  {
  }

  /** The mounted state for a volume at sector s. */
  ghost function MountedAt(disk: seq<Sector>, s: nat): MountResult
    requires s + 1 < |disk|
  {
    var d := ReadBpb(disk[s]);
    match Analyze(d, s)
    case NoFilesystem => MountNoFilesystem
    case FatVolume(info) =>
      if info.kind.Fat32? && d.fsInfo == 1 then
        Mount(Mounted(info, true, FsInfoFree(disk[s + 1]), FsInfoLast(disk[s + 1]), disk[s + 1], s + 1))
      else
        Mount(Mounted(info, false, UNKNOWN, UNKNOWN, disk[s], s))
  }

  /** After a sync that could write all it wanted, mounting the disk again finds the count and the hint the engine
      had. */
  lemma SyncedMounts(vol: Volume, m: Mounted)
    requires vol.Valid() && vol.g.kind.Fat32? && vol.fsiEnabled && !vol.fsiDirty && !vol.untold
    requires vol.g.volbase + 1 < |vol.disk| && MountedAt(vol.disk, vol.g.volbase) == Mount(m) && m.fsiEnabled
    ensures m.freeClst == vol.freeClst && m.lastClst == vol.lastClst
  {
    hide FsInfoFree, FsInfoLast, ReadBpb, Analyze, Tracks, Mirrors;
    assert vol.Told();
  }

  /** Free count and last allocated cluster of a FAT32 volume, when its FSInfo sector can be used. */
  method LoadFsInfo(drive: Drive, fsInfo: nat, info: MountInfo, win: Sector) returns (m: Mounted)
    ensures m.info == info
    ensures !(info.kind.Fat32? && fsInfo == 1) ==>
            m == Mounted(info, false, UNKNOWN, UNKNOWN, win, info.volbase)
    ensures drive.reliable && info.volbase + 1 < |drive.disk| && info.kind.Fat32? && fsInfo == 1 ==>
              var b := drive.disk[info.volbase + 1];
              m == Mounted(info, true, FsInfoFree(b), FsInfoLast(b), b, info.volbase + 1)
  {
    m := Mounted(info, false, UNKNOWN, UNKNOWN, win, info.volbase);
    if info.kind.Fat32? && fsInfo == 1 {
      var ok, b := drive.Read(info.volbase + 1);
      if ok {
        m := Mounted(info, true, FsInfoFree(b), FsInfoLast(b), b, info.volbase + 1);
      } else {
        m := m.(win := b, winsect := NO_WINDOW);
      }
    }
  }

  /** Mount the volume on the drive. */
  method MountDrive(drive: Drive) returns (r: MountResult)
    ensures forall s: nat :: drive.reliable && VolumeAt(drive.disk, s) ==> r == MountedAt(drive.disk, s)
    ensures drive.reliable && NoVolume(drive.disk) ==> !r.Mount?
  {
    hide KindOfSector, ReadBpb, Analyze, FsInfoFree, FsInfoLast;
    var kind, win, bsect := FindVolume(drive);
    match kind {
      case ReadError => r := MountDiskErr;
      case BootSector => r := MountNoFilesystem;
      case NoBootSector => r := MountNoFilesystem;
      case FatVbr =>
        var d := ReadBpb(win);
        match Analyze(d, bsect) {
          case NoFilesystem => r := MountNoFilesystem;
          case FatVolume(info) =>
            AnalyzedBase(d, bsect);
            var m := LoadFsInfo(drive, d.fsInfo, info, win);
            r := Mount(m);
        }
    }
  }

  lemma AnalyzedBase(d: Bpb, bsect: nat)
    requires Analyze(d, bsect).FatVolume?
    ensures Analyze(d, bsect).info.volbase == bsect
  {
  }
}
