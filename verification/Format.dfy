/** Formatting a drive, and mounting the empty volume it leaves. */
module Formatting {
  import opened Bytes
  import opened VolumeGeometry
  import opened FormatPlans
  import opened BootSectors
  import opened Drives
  import opened InfoSectors
  import opened Mounting
  import opened Volumes
  import opened FatEntries
  import opened Chains

  datatype MkfsResult = MkOk | MkAborted | MkDiskErr

  /** Sectors [base, base + n) hold head and then zeros. */
  ghost predicate Filled(disk: seq<Sector>, base: nat, n: nat, head: Sector) {
    base + n <= |disk| && forall s :: base <= s < base + n ==> disk[s] == if s == base then head else ZeroSector()
  }

  /** Sector 0 is a boot record with one partition, of this type, start and size; of it the cylinder, head and sector
      bytes may be anything. */
  ghost predicate IsMbr(b: Sector, start: nat, size: nat, sys: byte) {
    && ZeroBytes(b, 0, 447) && b[450] == sys && LdDword(b, 454) == start && LdDword(b, 458) == size
    && ZeroBytes(b, 462, 510) && LdWord(b, 510) == 0xAA55
  }

  /** The type of a partition of v sectors: FAT32, FAT12 or FAT16 of at least 65536 sectors, FAT16, FAT12. */
  ghost predicate IsSystem(kind: FatKind, v: nat, sys: byte) {
    && (kind.Fat32? ==> sys == 0x0C) && (!kind.Fat32? && v > 0xFFFF ==> sys == 0x06)
    && (kind.Fat16? && v <= 0xFFFF ==> sys == 0x04) && (kind.Fat12? && v <= 0xFFFF ==> sys == 0x01)
  }

  /** The first FAT sector of an empty volume: media and end marks, and the root directory's cluster of FAT32. */
  function FatHead(kind: FatKind): Sector {
    match kind
    case Fat12 => StDword(ZeroSector(), 0, 0xFF_FFF8)
    case Fat16 => StDword(ZeroSector(), 0, 0xFFFF_FFF8)
    case Fat32 => StDword(StDword(StDword(ZeroSector(), 0, 0xFFFF_FFF8), 4, 0xFFFF_FFFF), 8, 0x0FFF_FFFF)
  }

  function RootSectors(p: Plan): nat {
    if p.kind.Fat32? then p.csize else p.dir
  }

  /** The FSInfo sector behind the boot sector, and both again six sectors on. */
  ghost predicate HasInfo(disk: seq<Sector>, p: Plan)
    requires PARTITION + 8 <= |disk| && p.clusters > 0
  {
    && disk[PARTITION + 1] == FsInfo(p.clusters - 1, 2) == disk[PARTITION + 7]
    && disk[PARTITION + 6] == disk[PARTITION]
  }

  /** The drive holds an empty volume of the planned geometry, FSInfo and the backups aside. */
  ghost predicate LaidDown(disk: seq<Sector>, p: Plan) {
    && PARTITION + MIN_VOLUME <= |disk| < WORD32 && Acceptable(p, |disk| - PARTITION)
    && IsMbr(disk[0], PARTITION, |disk| - PARTITION, disk[0][450]) && IsSystem(p.kind, |disk| - PARTITION, disk[0][450])
    && IsVbr(disk[PARTITION], p, |disk| - PARTITION)
    && Filled(disk, p.FatBase(), p.fat, FatHead(p.kind))
    && Filled(disk, p.FatBase() + p.fat, RootSectors(p), ZeroSector())
  }

  /** And those too. */
  ghost predicate Formatted(disk: seq<Sector>, p: Plan) {
    LaidDown(disk, p) && (p.kind.Fat32? ==> HasInfo(disk, p))
  }

  function HeadOrZero(i: nat, head: Sector): Sector {
    if i == 0 then head else ZeroSector()
  }

  /** Write head and then zeros, a work buffer of bufSize sectors at a time. */
  method Fill(drive: Drive, base: nat, n: nat, head: Sector, bufSize: nat) returns (ok: bool)
    requires n > 0 && bufSize > 0
    modifies drive
    ensures SameOutside(old(drive.disk), drive.disk, base, n)
    ensures ok ==> Filled(drive.disk, base, n, head)
    ensures drive.reliable && base + n <= |drive.disk| ==> ok
  {
    var buf: seq<Sector> := seq(bufSize, i requires 0 <= i < bufSize => HeadOrZero(i, head));
    var sect, left := base, n;
    ok := true;
    while left > 0
      invariant ok && sect + left == base + n && base <= sect && SameOutside(old(drive.disk), drive.disk, base, n)
      invariant sect > base ==> Filled(drive.disk, base, sect - base, head)
      invariant |buf| == bufSize
      invariant forall i :: 0 <= i < bufSize ==> buf[i] == if i == 0 && sect == base then head else ZeroSector()
      decreases left
    {
      var m := if left > bufSize then bufSize else left;
      ghost var was := drive.disk;
      ok := drive.Write(sect, buf[..m]);
      if !ok {
        return;
      }
      assert forall s :: sect <= s < sect + m ==> drive.disk[s] == buf[..m][s - sect];
      buf := buf[0 := ZeroSector()];
      sect, left := sect + m, left - m;
    }
  }

  /** The size of a partition that starts at next: percentages of the drive up to 100, clipped at its end. */
  function PartitionSize(size: nat, next: nat, total: nat): (n: nat)
    requires next <= total
    ensures next + n <= total && (100 < size <= total - next && total < WORD32 ==> n == size)
  {
    var n := if size > 100 then size else if size == 100 then total else total / 100 * size;
    if next + n > total || (next + n) % WORD32 < next then total - next else n
  }

  /** Write a partition table with the partitions of the given sizes, one track in. The legacy
      cylinder, head and sector bytes may hold anything. */
  method CreatePartitions(drive: Drive, sizes: seq<nat>, sys: byte) returns (ok: bool)
    requires |sizes| == 2 && 100 < sizes[0] && PARTITION + sizes[0] == |drive.disk| < WORD32
    modifies drive
    ensures SameOutside(old(drive.disk), drive.disk, 0, 1)
    ensures ok ==> IsMbr(drive.disk[0], PARTITION, sizes[0], sys)
    ensures drive.reliable ==> ok
  {
    hide StDword, StWord;
    var total := |drive.disk|;
    var b := ZeroSector();
    var i, next := 0, PARTITION;
    while i < 4 && next != 0 && next < total
      invariant (i == 0 && next == PARTITION && ZeroBytes(b, 0, 512)) || (i == 1 && next == total)
      invariant i == 1 ==> b[450] == sys && LdDword(b, 454) == PARTITION && LdDword(b, 458) == sizes[0]
      invariant ZeroBytes(b, 0, 447) && ZeroBytes(b, 462, 512)
      invariant |drive.disk| == total && drive.disk == old(drive.disk)
      decreases 4 - i
    {
      var size := PartitionSize(sizes[i], next, total);
      if size == 0 {
        break;
      }
      var pte := MBR_TABLE + i * SZ_PTE;
      var c1: byte, c2: byte, c3: byte, c5: byte, c6: byte, c7: byte := *, *, *, *, *, *;
      LdStDword(b, pte + PTE_ST_LBA, next);
      b := StDword(b, pte + PTE_ST_LBA, next);
      LdStDword(b, pte + 12, size);
      b := StDword(b, pte + 12, size);
      b := b[pte + 4 := sys];
      b := b[pte + 1 := c1][pte + 2 := c2][pte + 3 := c3][pte + 5 := c5][pte + 6 := c6][pte + 7 := c7];
      i, next := i + 1, next + size;
    }
    b := StWord(b, BS_55AA, 0xAA55);
    ok := drive.Write(0, [b]);
    assert ok ==> drive.disk[0 + 0] == [b][0];
  }

  /** The system id of the partition. */
  function SystemId(kind: FatKind, v: nat): (sys: byte)
    ensures IsSystem(kind, v, sys)
  {
    if kind.Fat32? then 0x0C else if v >= 0x1_0000 then 0x06 else if kind.Fat16? then 0x04 else 0x01
  }

  /** FSInfo and the backups of a FAT32 volume; the engine ignores the outcome of these writes. */
  method WriteInfoSectors(drive: Drive, p: Plan, vbr: Sector)
    requires p.clusters > 0
    modifies drive
    ensures SameOutside(old(drive.disk), drive.disk, PARTITION + 1, 7)
    ensures drive.reliable && PARTITION + 8 <= |drive.disk| && old(drive.disk)[PARTITION] == vbr ==>
              HasInfo(drive.disk, p)
  {
    hide FsInfo;
    var ok := drive.Write(PARTITION + 6, [vbr]);
    assert ok ==> drive.disk[PARTITION + 6 + 0] == [vbr][0];
    var info := FsInfo(p.clusters - 1, 2);
    ok := drive.Write(PARTITION + 7, [info]);
    assert ok ==> drive.disk[PARTITION + 7 + 0] == [info][0];
    ok := drive.Write(PARTITION + 1, [info]);
    assert ok ==> drive.disk[PARTITION + 1 + 0] == [info][0];
  }

  /** Write the volume's own sectors. */
  method WriteVolume(drive: Drive, p: Plan, bufSize: nat) returns (ok: bool)
    requires PARTITION + MIN_VOLUME <= |drive.disk| < WORD32 && Acceptable(p, |drive.disk| - PARTITION) && bufSize > 0
    modifies drive
    ensures |drive.disk| == |old(drive.disk)|
    ensures drive.reliable ==> ok
    ensures ok && drive.reliable && p.kind.Fat32? ==> p.clusters > 0 && HasInfo(drive.disk, p)
    ensures ok ==>
              && IsVbr(drive.disk[PARTITION], p, |drive.disk| - PARTITION)
              && Filled(drive.disk, p.FatBase(), p.fat, FatHead(p.kind))
              && Filled(drive.disk, p.FatBase() + p.fat, RootSectors(p), ZeroSector())
  {
    hide Acceptable, IsVbr, FsInfo, FatHead, Filled;
    var v := |drive.disk| - PARTITION;
    PlanMounts(p, v);
    RegionsFit(p, v);
    var vbr := BuildVbr(p, v);
    ok := drive.Write(PARTITION, [vbr]);
    if !ok {
      return;
    }
    assert drive.disk[PARTITION + 0] == [vbr][0];
    if p.kind.Fat32? {
      WriteInfoSectors(drive, p, vbr);
    }
    ok := Fill(drive, p.FatBase(), p.fat, FatHead(p.kind), bufSize);
    if !ok {
      return;
    }
    ghost var was := drive.disk;
    ok := Fill(drive, p.FatBase() + p.fat, RootSectors(p), ZeroSector(), bufSize);
    FilledFrame(was, drive.disk, p.FatBase(), p.fat, FatHead(p.kind), p.FatBase() + p.fat, RootSectors(p));
  }

  lemma RegionsFit(p: Plan, v: nat)
    requires Acceptable(p, v)
    ensures p.csize < 256 && 0 < RootSectors(p) && p.System() + (if p.kind.Fat32? then p.csize else 0) <= v
    ensures p.FatBase() + p.fat + RootSectors(p) <= PARTITION + v
  {
  }

  lemma FilledFrame(disk: seq<Sector>, disk': seq<Sector>, base: nat, n: nat, head: Sector, s: nat, m: nat)
    requires SameOutside(disk, disk', s, m) && base + n <= s
    ensures Filled(disk, base, n, head) ==> Filled(disk', base, n, head)
  {
  }

  /** Format the drive as one partition with one volume. */
  method Mkfs(drive: Drive, bufSize: nat) returns (res: MkfsResult, ghost p: Plan)
    requires |drive.disk| < WORD32 && bufSize > 0
    modifies drive
    ensures |drive.disk| == |old(drive.disk)|
    ensures res.MkAborted? <==> |drive.disk| < PARTITION + MIN_VOLUME
    ensures res.MkAborted? ==> drive.disk == old(drive.disk)
    ensures drive.reliable ==> !res.MkDiskErr?
    ensures res.MkOk? ==> Chosen(p, |drive.disk| - PARTITION) && LaidDown(drive.disk, p)
    ensures drive.reliable && res.MkOk? ==> Formatted(drive.disk, p)
  {
    hide Acceptable, Chosen, IsVbr, FsInfo, FatHead, IsSystem;
    var v := if |drive.disk| > PARTITION then |drive.disk| - PARTITION else |drive.disk|;
    p := Plan(Fat12, 0, 0, 0, 0, 0);
    var r := Search(v);
    if r.Aborted? {
      return MkAborted, p;
    }
    p := r.plan;
    var ok := WriteVolume(drive, r.plan, bufSize);
    if !ok {
      return MkDiskErr, p;
    }
    ghost var was := drive.disk;
    ok := CreatePartitions(drive, [v, 0], SystemId(r.plan.kind, v));
    if !ok {
      return MkDiskErr, p;
    }
    ok := drive.Sync();
    res := if ok then MkOk else MkDiskErr;
  }

  // ---- Mounting what was formatted -------------------------------------------------------------

  /** The mounted state of an empty volume: its free count is exact on FAT32 and unknown otherwise. */
  ghost function FreshMount(disk: seq<Sector>, p: Plan): Mounted
    requires PARTITION + 1 < |disk| && p.clusters > 0
  {
    if p.kind.Fat32? then Mounted(InfoOf(p), true, p.clusters - 1, 2, disk[PARTITION + 1], PARTITION + 1)
    else Mounted(InfoOf(p), false, UNKNOWN, UNKNOWN, disk[PARTITION], PARTITION)
  }

  /** A mount finds the volume and derives the very geometry the format chose. */
  lemma FormattedMounts(disk: seq<Sector>, p: Plan)
    requires Formatted(disk, p)
    ensures VolumeAt(disk, PARTITION)
    ensures p.clusters > 0 && MountedAt(disk, PARTITION) == Mount(FreshMount(disk, p))
    ensures |disk| >= PARTITION && Acceptable(p, |disk| - PARTITION)
    ensures InfoOf(p).Geo(|disk|) == GeometryOf(p, |disk| - PARTITION)
    ensures InfoOf(p).Geo(|disk|).Wf() && InfoOf(p).Geo(|disk|).Layout()
    ensures p.clusters <= UNKNOWN && (p.kind.Fat32? ==> Tells(disk[PARTITION + 1], p.clusters - 1, 2))
  {
    hide Acceptable, ReadBpb, FsInfo, FsInfoFree, FsInfoLast, Analyze, Filled, StartLba, GeometryOf, IsVbr, IsMbr,
         IsSystem, Describes, KindOfSector;
    var v := |disk| - PARTITION;
    PlanMounts(p, v);
    VbrDescribes(disk[PARTITION], p, v);
    PlanAnalyzed(ReadBpb(disk[PARTITION]), p, v);
    NotVolume(disk[0], v, disk[0][450]);
    VbrIsVolume(disk[PARTITION]);
    assert FirstPartition(disk, 0, PARTITION);
    if p.kind.Fat32? {
      FsInfoReads(p.clusters - 1, 2);
    }
  }

  lemma NotVolume(b: Sector, size: nat, sys: byte)
    requires IsMbr(b, PARTITION, size, sys)
    ensures KindOfSector(b).BootSector? && StartLba(b, 0) == PARTITION
  {
    assert b[0] == 0;
  }

  lemma VbrIsVolume(b: Sector)
    requires LooksLikeFat(ReadBpb(b))
    ensures KindOfSector(b).FatVbr?
  {
  }

  function TableOf(p: Plan): Table {
    Table(p.kind, p.clusters + 2, p.FatBase(), p.fat)
  }

  /** Bytes of the first FAT entries, before the data clusters. */
  function Marks(kind: FatKind): nat {
    match kind
    case Fat12 => 3
    case Fat16 => 4
    case Fat32 => 12
  }

  lemma HeadBytes(kind: FatKind, k: nat)
    requires Marks(kind) <= k < 512
    ensures FatHead(kind)[k] == 0
  {
    hide StWord;
    if kind.Fat12? {
      LastByte();
    }
  }

  lemma LastByte()
    ensures FatHead(Fat12)[3] == 0
  {
  }

  lemma RootMark()
    ensures LdDword(FatHead(Fat32), 8) == 0x0FFF_FFFF
  {
    hide StDword;
    LdStDword(StDword(StDword(ZeroSector(), 0, 0xFFFF_FFF8), 4, 0xFFFF_FFFF), 8, 0x0FFF_FFFF);
  }

  lemma ZeroByte(t: Table, disk: seq<Sector>, k: nat)
    requires t.On(disk) && Filled(disk, t.base, t.size, FatHead(t.kind)) && Marks(t.kind) <= k < 512 * t.size
    ensures FatByte(t, disk, k) == 0
  {
    hide FatHead;
    var s := t.base + k / 512;
    assert t.base <= s < t.base + t.size;
    if s == t.base {
      HeadBytes(t.kind, k);
    }
  }

  /** Every data cluster of a fresh FAT is free, but for the root directory's of FAT32. */
  lemma FreshEntry(t: Table, disk: seq<Sector>, c: nat)
    requires t.On(disk) && Filled(disk, t.base, t.size, FatHead(t.kind)) && 2 <= c < t.n
    ensures Entry(t, disk, c) == if t.kind.Fat32? && c == 2 then 0x0FFF_FFFF else 0
  {
    hide FatHead, Filled;
    match t.kind {
      case Fat12 =>
        ZeroByte(t, disk, Offset12(c));
        ZeroByte(t, disk, Offset12(c) + 1);
      case Fat16 => FreshEntry16(t, disk, c);
      case Fat32 => FreshEntry32(t, disk, c);
    }
  }

  lemma FreshEntry16(t: Table, disk: seq<Sector>, c: nat)
    requires t.On(disk) && t.kind.Fat16? && Filled(disk, t.base, t.size, FatHead(t.kind)) && 2 <= c < t.n
    ensures Entry16(t, disk, c) == 0
  {
    hide FatHead, Filled;
    ZeroByte(t, disk, 2 * c);
    ZeroByte(t, disk, 2 * c + 1);
  }

  lemma FreshEntry32(t: Table, disk: seq<Sector>, c: nat)
    requires t.On(disk) && t.kind.Fat32? && Filled(disk, t.base, t.size, FatHead(t.kind)) && 2 <= c < t.n
    ensures Raw32(t, disk, c) == if c == 2 then 0x0FFF_FFFF else 0
  {
    if c == 2 {
      hide FatHead;
      RootMark();
    } else {
      hide FatHead, Filled;
      ZeroByte(t, disk, 4 * c);
      ZeroByte(t, disk, 4 * c + 1);
      ZeroByte(t, disk, 4 * c + 2);
      ZeroByte(t, disk, 4 * c + 3);
    }
  }

  lemma HeadStart(kind: FatKind)
    ensures FatHead(kind)[0] == 0xF8 && FatHead(kind)[1] == 0xFF && FatHead(kind)[2] == 0xFF
    ensures kind.Fat32? ==> FatHead(kind)[4] == 0xFF
  {
    assert 0xFF_FFF8 % 0x1_0000 == 0xFFF8 && 0xFF_FFF8 / 0x1_0000 == 0xFF;
  }

  /** The two reserved entries are in use. */
  lemma ReservedInUse(t: Table, disk: seq<Sector>)
    requires t.On(disk) && t.size > 0 && Filled(disk, t.base, t.size, FatHead(t.kind)) && t.n >= 3
    ensures Entry(t, disk, 0) != 0 && Entry(t, disk, 1) != 0
  {
    assert disk[t.base] == FatHead(t.kind);
    HeadStart(t.kind);
    hide FatHead, Filled;
    match t.kind {
      case Fat12 =>
        assert FatByte(t, disk, 0) == 0xF8 && FatByte(t, disk, 1) == 0xFF && FatByte(t, disk, 2) == 0xFF;
      case Fat16 =>
      case Fat32 => Reserved32(t, disk);
    }
  }

  lemma Reserved32(t: Table, disk: seq<Sector>)
    requires t.On(disk) && t.kind.Fat32? && t.n >= 3 && t.size > 0 && disk[t.base][0] == 0xF8 && disk[t.base][4] == 0xFF
    ensures Entry(t, disk, 0) != 0 && Entry(t, disk, 1) != 0
  {
    LowOfDword(disk[t.base], 0);
    LowOfDword(disk[t.base], 4);
    LowByte(Raw32(t, disk, 0));
    LowByte(Raw32(t, disk, 1));
    hide LdDword;
  }

  lemma LowOfDword(b: Sector, o: nat)
    requires o + 3 < 512
    ensures LdDword(b, o) % 0x100 == b[o] as int
  {
    var k := b[o + 1] as int + 0x100 * LdWord(b, o + 2);
    assert LdDword(b, o) == b[o] as int + 0x100 * k;
  }

  lemma LowByte(a: nat)
    ensures a % 0x1000_0000 % 0x100 == a % 0x100
  {
  }

  /** A table whose data entries are all zero, but perhaps that of cluster 2. */
  lemma EmptyTable(f: seq<nat>, root: bool, free: nat)
    requires |f| >= 3 && forall c :: 2 <= c < |f| ==> f[c] == if root && c == 2 then 0x0FFF_FFFF else 0
    requires if root then free == |f| - 3 else free > |f| - 2
    ensures FreeSet(f) == Clusters(|f|) - (if root then {2} else {}) && NoOnes(f) && CountExact(f, free)
  {
    assert FreeSet(f) == Clusters(|f|) - (if root then {2} else {});
  }

  /** A mount of a freshly formatted drive sees no cluster in use but the root directory's, and its free
      count is exact or unknown. */
  lemma FreshTable(disk: seq<Sector>, p: Plan)
    requires Formatted(disk, p)
    ensures TableOf(p).On(disk) && p.clusters >= MIN_CLUSTERS
    ensures var f := FatOf(TableOf(p), disk);
            && FreeSet(f) == Clusters(p.clusters + 2) - (if p.kind.Fat32? then {2} else {})
            && NoOnes(f)
            && CountExact(f, FreshMount(disk, p).freeClst)
            && |f| > 2 && f[0] != 0 && f[1] != 0 && (p.kind.Fat32? ==> f[2] == 0x0FFF_FFFF)
            && p.dir == (if p.kind.Fat32? then 0 else ROOT_SECTORS)
  {
    hide Acceptable, IsMbr, IsSystem, IsVbr, HasInfo, FsInfo, FatHead, Filled, Entry, FreeSet, NoOnes, CountExact;
    var t := TableOf(p);
    PlanMounts(p, |disk| - PARTITION);
    var f := FatOf(t, disk);
    ReservedInUse(t, disk);
    forall c: nat | 2 <= c < |f|
      ensures f[c] == if p.kind.Fat32? && c == 2 then 0x0FFF_FFFF else 0
    {
      FreshEntry(t, disk, c);
    }
    EmptyTable(f, p.kind.Fat32?, FreshMount(disk, p).freeClst);
  }

  lemma EmptyRoot(disk: seq<Sector>, p: Plan)
    requires Formatted(disk, p)
    ensures Filled(disk, p.FatBase() + p.fat, if p.kind.Fat32? then p.csize else ROOT_SECTORS, ZeroSector())
  {
    hide IsVbr, HasInfo, FsInfo, FatHead, Filled, IsMbr, IsSystem;
  }

  /** Mount the volume of a formatted drive. */
  method MountFormatted(drive: Drive, ghost p: Plan) returns (vol: Volume)
    requires drive.reliable && Formatted(drive.disk, p)
    ensures fresh(vol) && vol.reliable && vol.Valid() && vol.g.Wf() && vol.disk == vol.view == drive.disk
    ensures |drive.disk| >= PARTITION + 2 && vol.g == GeometryOf(p, |drive.disk| - PARTITION)
    ensures p.clusters > 0 && vol.freeClst == FreshMount(drive.disk, p).freeClst
    ensures !vol.untold && (vol.g.kind.Fat32? <==> vol.fsiEnabled)
  {
    hide Formatted, MountedAt, VolumeAt, Geometry.Wf, Geometry.Layout, Tracks, Mirrors, FsInfoFree, FsInfoLast;
    FormattedMounts(drive.disk, p);
    var r := MountDrive(drive);
    var m := r.m;
    var g := m.info.Geo(|drive.disk|);
    vol := new Volume(g, true, m.fsiEnabled, drive.disk, m.winsect, m.freeClst, m.lastClst);
  }

  /** Format a drive and mount it. It succeeds exactly on drives of at least 191 sectors. */
  method StartFormatted(drive: Drive, bufSize: nat) returns (vol: Volume?, ghost p: Plan)
    requires |drive.disk| < WORD32 && bufSize > 0 && drive.reliable
    modifies drive
    ensures |drive.disk| == |old(drive.disk)|
    ensures vol != null <==> |drive.disk| >= 191
    ensures vol != null ==>
              && fresh(vol) && vol.reliable && vol.Valid() && vol.g.Wf() && vol.g.total == |drive.disk|
                && vol.disk == vol.view == drive.disk
              && FreeSet(vol.Fat()) == Clusters(vol.g.nFatent) - (if vol.g.kind.Fat32? then {2} else {})
              && NoOnes(vol.Fat()) && CountExact(vol.Fat(), vol.freeClst)
              && vol.g.nFats == 1
              && vol.g.database == vol.g.fatbase + vol.g.fsize + (if vol.g.kind.Fat32? then 0 else ROOT_SECTORS)
              && Acceptable(p, |drive.disk| - PARTITION) && vol.g == GeometryOf(p, |drive.disk| - PARTITION)
              && Chosen(p, |drive.disk| - PARTITION)
              && |vol.Fat()| >= MIN_CLUSTERS + 2 && vol.Fat()[0] != 0 && vol.Fat()[1] != 0
                && (vol.g.kind.Fat32? ==> vol.Fat()[2] == 0x0FFF_FFFF)
              && Filled(vol.view, vol.g.fatbase + vol.g.fsize, if vol.g.kind.Fat32? then vol.g.csize else ROOT_SECTORS,
                ZeroSector())
              && !vol.untold && (vol.g.kind.Fat32? <==> vol.fsiEnabled)
  {
    hide Acceptable, Chosen, LaidDown, Formatted, FatOf, FreeSet, NoOnes, CountExact, Geometry.Wf, Geometry.Layout,
         Clusters, Filled, Volume.Valid;
    vol := null;
    var res: MkfsResult;
    res, p := Mkfs(drive, bufSize);
    if res.MkOk? {
      FormattedMounts(drive.disk, p);
      FreshTable(drive.disk, p);
      EmptyRoot(drive.disk, p);
      vol := MountFormatted(drive, p);
    }
  }
}
