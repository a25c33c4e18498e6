/** The geometry f_mkfs chooses: cluster size, FAT sub-type and region sizes. */
module FormatPlans {
  import opened VolumeGeometry
  import opened FileLayout

  /** Sectors per track, and so where the single partition starts. */
  const PARTITION: nat := 63
  const MIN_VOLUME: nat := 128
  const MIN_CLUSTERS: nat := 16
  const ROOT_ENTRIES: nat := 512
  const ROOT_SECTORS: nat := 32
  /** Cluster size boundaries, in units of 4K sectors and of 128K sectors. */
  const FAT_STEPS: seq<nat> := [1, 4, 16, 64, 256, 512]
  const FAT32_STEPS: seq<nat> := [1, 2, 4, 8, 16, 32]

  /** Sizes in sectors; clusters is the number of data clusters. */
  datatype Plan = Plan(kind: FatKind, csize: nat, rsv: nat, fat: nat, dir: nat, clusters: nat) {
    function System(): nat {
      rsv + fat + dir
    }

    function FatBase(): nat {
      PARTITION + rsv
    }

    function DataBase(): nat {
      PARTITION + System()
    }
  }

  function Pow2(i: nat): nat {
    if i == 0 then 1 else 2 * Pow2(i - 1)
  }

  /** The first i boundaries are reached and the next one, if any, is not. */
  predicate Fit(steps: seq<nat>, n: nat, i: nat) {
    && i <= |steps|
    && (i > 0 ==> steps[i - 1] <= n)
    && (i < |steps| ==> n < steps[i])
  }

  /** A power of two up to 64, one doubling for each boundary reached. */
  predicate AutoSize(steps: seq<nat>, n: nat, csize: nat) {
    exists i :: 0 <= i <= 6 && Fit(steps, n, i) && csize == Pow2(i)
  }

  /** Cluster size by the size of the volume. */
  method ChooseSize(steps: seq<nat>, n: nat) returns (csize: nat)
    requires |steps| == 6
    ensures AutoSize(steps, n, csize)
  {
    var i: nat := 0;
    csize := 1;
    while i < |steps| && steps[i] <= n
      invariant i <= |steps| && csize == Pow2(i) && (i > 0 ==> steps[i - 1] <= n)
    {
      i, csize := i + 1, csize * 2;
    }
    assert Fit(steps, n, i);
  }

  function Sectors(bytes: nat): nat {
    (bytes + 511) / 512
  }

  /** Sectors for the FAT of n clusters. */
  function FatSectors(kind: FatKind, n: nat): nat {
    match kind
    case Fat12 => Sectors((n * 3 + 1) / 2 + 3)
    case Fat16 => Sectors(n * 2 + 4)
    case Fat32 => Sectors(n * 4 + 8)
  }

  function Whole(sectors: nat, csize: nat): nat
    requires csize > 0
  {
    sectors / csize
  }

  /** The sizes one round of the search arrives at, for a FAT32 or a FAT12/16 volume of v sectors. */
  function Trial(fat32: bool, csize: nat, v: nat): (p: Plan)
    requires csize > 0
    ensures p.csize == csize && (p.kind.Fat32? <==> fat32)
  {
    var n := Whole(v, csize);
    var kind := if fat32 then Fat32 else if n > MAX_FAT12 then Fat16 else Fat12;
    var fat := FatSectors(kind, n);
    var rsv, dir := if fat32 then 32 else 1, if fat32 then 0 else ROOT_SECTORS;
    Plan(kind, csize, rsv, fat, dir, if rsv + fat + dir <= v then Whole(v - (rsv + fat + dir), csize) else 0)
  }

  /** The first estimate of the cluster count is one FAT32 allows. */
  predicate InRange32(csize: nat, v: nat)
    requires csize > 0
  {
    MAX_FAT16 < v / csize <= MAX_FAT32
  }

  predicate Roomy(p: Plan, v: nat) {
    p.System() + MIN_CLUSTERS * p.csize <= v
  }

  /** The cluster count the plan ends with is one for its sub-type. */
  predicate RightCount(p: Plan) {
    match p.kind
    case Fat12 => p.clusters <= MAX_FAT12
    case Fat16 => MAX_FAT12 < p.clusters <= MAX_FAT16
    case Fat32 => MAX_FAT16 < p.clusters <= MAX_FAT32
  }

  ghost predicate Acceptable(p: Plan, v: nat) {
    && p.csize in {1, 2, 4, 8, 16, 32, 64}
    && p == Trial(p.kind.Fat32?, p.csize, v)
    && Roomy(p, v) && RightCount(p)
  }

  /** Sectors to a cluster of a FAT12 or FAT16 volume of v sectors, by its size alone. */
  function AutoCluster(v: nat): nat {
    if v < 0x1000 then 1 else if v < 0x4000 then 2 else if v < 0x1_0000 then 4 else if v < 0x4_0000 then 8
    else if v < 0x10_0000 then 16 else if v < 0x20_0000 then 32 else 64
  }

  /** The same for FAT32. */
  function AutoCluster32(v: nat): nat {
    if v < 0x2_0000 then 1 else if v < 0x4_0000 then 2 else if v < 0x8_0000 then 4 else if v < 0x10_0000 then 8
    else if v < 0x20_0000 then 16 else if v < 0x40_0000 then 32 else 64
  }

  /** The plan for a volume: FAT12 or FAT16 with clusters by its size, or twice as large if they do not do, or FAT32
      if they cannot be larger. */
  ghost predicate Chosen(p: Plan, v: nat) {
    var c := AutoCluster(v);
    p == if RightCount(Trial(false, c, v)) then Trial(false, c, v)
         else if c < 64 then Trial(false, 2 * c, v) else Trial(true, AutoCluster32(v), v)
  }

  lemma AutoIs(v: nat, c: nat)
    ensures AutoSize(FAT_STEPS, v / 0x1000, c) ==> c == AutoCluster(v)
    ensures AutoSize(FAT32_STEPS, v / 0x2_0000, c) ==> c == AutoCluster32(v)
  {
    if AutoSize(FAT_STEPS, v / 0x1000, c) {
      AutoCases(FAT_STEPS, v / 0x1000, c);
    }
    if AutoSize(FAT32_STEPS, v / 0x2_0000, c) {
      AutoCases(FAT32_STEPS, v / 0x2_0000, c);
    }
    hide AutoSize;
  }

  /** Of what the search tries: the automatic sizes, twice the automatic size, FAT32 at its automatic size. */
  ghost predicate Reachable(v: nat, fat32: bool, fixed: nat) {
    if fat32 then fixed == 0 && v / 64 > MAX_FAT16 && AutoCluster(v) == 64 && !RightCount(Trial(false, 64, v))
    else fixed == 0 || exists c: nat ::
      AutoSize(FAT_STEPS, v / 0x1000, c) && fixed == 2 * c && c <= 32 && !RightCount(Trial(false, c, v))
  }

  /** How a round of the search ends; fixed is a cluster size to use, 0 for the automatic one. */
  datatype Verdict = Accepted(plan: Plan) | Retry(fat32: bool, fixed: nat) | Aborted

  function Decide(fat32: bool, fixed: nat, csize: nat, v: nat): Verdict
    requires csize > 0
  {
    var p := Trial(fat32, csize, v);
    if fat32 && !InRange32(csize, v) then Aborted
    else if !Roomy(p, v) then Aborted
    else if p.kind.Fat32? && p.clusters <= MAX_FAT16 then
      if fixed == 0 && csize / 2 != 0 then Retry(true, csize / 2) else Aborted
    else if p.kind.Fat16? && p.clusters > MAX_FAT16 then
      if fixed == 0 && csize * 2 <= 64 then Retry(false, csize * 2) else Retry(true, fixed)
    else if p.kind.Fat16? && p.clusters <= MAX_FAT12 then
      if fixed == 0 && csize * 2 <= 128 then Retry(false, csize * 2) else Aborted
    else if p.kind.Fat12? && p.clusters > MAX_FAT12 then Aborted
    else Accepted(p)
  }

  /** The search is on its way: it has not aborted, and what it accepted is acceptable. */
  ghost predicate OnTrack(r: Verdict, v: nat) {
    match r
    case Accepted(p) => Acceptable(p, v) && Chosen(p, v)
    case Retry(fat32, fixed) => Reachable(v, fat32, fixed)
    case Aborted => false
  }

  ghost function RoundsLeft(r: Verdict): nat {
    match r
    case Retry(fat32, fixed) => if fat32 then 1 else if fixed == 0 then 3 else 2
    case _ => 0
  }

  lemma AutoCases(steps: seq<nat>, n: nat, c: nat)
    requires |steps| == 6 && AutoSize(steps, n, c)
    ensures (c == 1 && n < steps[0]) || (c == 2 && steps[0] <= n < steps[1]) || (c == 4 && steps[1] <= n < steps[2])
      || (c == 8 && steps[2] <= n < steps[3]) || (c == 16 && steps[3] <= n < steps[4])
      || (c == 32 && steps[4] <= n < steps[5]) || (c == 64 && steps[5] <= n)
  {
    assert Pow2(1) == 2 && Pow2(2) == 4 && Pow2(3) == 8 && Pow2(4) == 16 && Pow2(5) == 32 && Pow2(6) == 64;
  }

  lemma Quotient(a: nat, c: nat)
    requires c > 0
    ensures c * (a / c) <= a < c * (a / c) + c
  {
  }

  /** Bounds on the sizes of a round, without division. */
  ghost predicate Sized(p: Plan, n: nat, c: nat, v: nat) {
    && c * n <= v < c * n + c
    && (p.kind == if n > MAX_FAT12 then Fat16 else Fat12)
    && (if n > MAX_FAT12 then 2 * n + 4 <= 512 * p.fat < 2 * n + 516 else 3 * n + 6 <= 1024 * p.fat < 3 * n + 1032)
    && p.System() == 33 + p.fat && p.csize == c
    && (p.System() <= v ==> c * p.clusters <= v - p.System() < c * p.clusters + c)
  }

  lemma TrialSized(c: nat, v: nat)
    requires c > 0
    ensures Sized(Trial(false, c, v), v / c, c, v)
  {
    Quotient(v, c);
    var p := Trial(false, c, v);
    if p.System() <= v {
      Quotient(v - p.System(), c);
    }
  }

  /** The automatic size for a FAT12/16 volume leads to an acceptable plan, or calls for a larger cluster or FAT32. */
  lemma FirstRound(v: nat, c: nat)
    requires MIN_VOLUME <= v < 0x1_0000_0000 && AutoSize(FAT_STEPS, v / 0x1000, c)
    ensures c in {1, 2, 4, 8, 16, 32, 64} && v / c < 0x800_0000 && Roomy(Trial(false, c, v), v)
    ensures var p := Trial(false, c, v);
            && (p.kind.Fat12? ==> RightCount(p))
            && (p.kind.Fat16? && p.clusters <= MAX_FAT12 ==> c <= 8)
            && (p.kind.Fat16? && p.clusters > MAX_FAT16 ==> c >= 32 && (c == 64 ==> v / 64 > MAX_FAT16))
  {
    hide Trial, AutoSize;
    AutoCases(FAT_STEPS, v / 0x1000, c);
    TrialSized(c, v);
    if c == 1 {
    } else if c == 2 {
    } else if c == 4 {
    } else if c == 8 {
    } else if c == 16 {
    } else if c == 32 {
    } else {
    }
  }

  /** The sizes of volume for which the automatic size fails although FAT12 or FAT16 will do. */
  lemma WhereItFails(v: nat, c: nat)
    requires MIN_VOLUME <= v < 0x1_0000_0000 && AutoSize(FAT_STEPS, v / 0x1000, c) && c <= 32
    requires !RightCount(Trial(false, c, v))
    ensures (c == 1 && 4000 < v < 4100) || (c == 2 && 8000 < v < 8300) || (c == 4 && 16000 < v < 16500)
      || (c == 32 && 2_096_000 < v < 2_097_152)
  {
    hide Trial, AutoSize;
    AutoCases(FAT_STEPS, v / 0x1000, c);
    TrialSized(c, v);
    if c == 1 {
    } else if c == 2 {
    } else if c == 4 {
    } else if c == 8 {
    } else if c == 16 {
    } else {
    }
  }

  /** Doubling the automatic size settles it. */
  lemma SecondRound(v: nat, c: nat)
    requires MIN_VOLUME <= v < 0x1_0000_0000 && AutoSize(FAT_STEPS, v / 0x1000, c) && c <= 32
    requires !RightCount(Trial(false, c, v))
    ensures 2 * c in {2, 4, 8, 64} && v / (2 * c) < 0x800_0000
    ensures Roomy(Trial(false, 2 * c, v), v) && RightCount(Trial(false, 2 * c, v))
  {
    hide Trial, AutoSize;
    WhereItFails(v, c);
    TrialSized(2 * c, v);
    if c == 1 {
    } else if c == 2 {
    } else if c == 4 {
    } else {
    }
  }

  /** FAT32 at its automatic size settles it for the largest volumes. */
  lemma LargeVolume(v: nat, c: nat)
    requires v < 0x1_0000_0000 && v / 64 > MAX_FAT16 && AutoSize(FAT32_STEPS, v / 0x2_0000, c)
    ensures c in {32, 64} && v / c < 0x800_0000 && InRange32(c, v)
    ensures Roomy(Trial(true, c, v), v) && RightCount(Trial(true, c, v))
  {
    AutoCases(FAT32_STEPS, v / 0x2_0000, c);
  }

  ghost predicate SizeFor(v: nat, fat32: bool, fixed: nat, csize: nat) {
    if fixed == 0 then AutoSize(if fat32 then FAT32_STEPS else FAT_STEPS, v / (if fat32 then 0x2_0000 else 0x1000),
      csize)
    else csize == fixed
  }

  /** No round aborts, the FAT's size in bytes is far from wrapping, and each retry is nearer to the end. */
  lemma Round(v: nat, fat32: bool, fixed: nat, csize: nat)
    requires MIN_VOLUME <= v < 0x1_0000_0000 && Reachable(v, fat32, fixed) && SizeFor(v, fat32, fixed, csize)
    ensures csize > 0 && v / csize < 0x800_0000
    ensures OnTrack(Decide(fat32, fixed, csize, v), v)
    ensures RoundsLeft(Decide(fat32, fixed, csize, v)) < RoundsLeft(Retry(fat32, fixed))
  {
    hide Trial, AutoSize, Roomy, InRange32, AutoCluster, AutoCluster32;
    AutoIs(v, csize);
    if fat32 {
      LargeVolume(v, csize);
    } else if fixed == 0 {
      FirstRound(v, csize);
    } else {
      var c: nat :| AutoSize(FAT_STEPS, v / 0x1000, c) && fixed == 2 * c && c <= 32 && !RightCount(Trial(false, c, v));
      AutoIs(v, c);
      SecondRound(v, c);
    }
  }

  /** The search for a geometry. It ends, and finds an acceptable one for every volume that is not too small. */
  method Search(v: nat) returns (r: Verdict)
    requires v < 0x1_0000_0000
    ensures if v < MIN_VOLUME then r.Aborted? else r.Accepted? && Acceptable(r.plan, v) && Chosen(r.plan, v)
  {
    hide Decide, AutoSize, Chosen;
    if v < MIN_VOLUME {
      return Aborted;
    }
    r := Retry(false, 0);
    while r.Retry?
      invariant OnTrack(r, v)
      decreases RoundsLeft(r)
    {
      var csize := r.fixed;
      if csize == 0 {
        csize := ChooseSize(if r.fat32 then FAT32_STEPS else FAT_STEPS, v / (if r.fat32 then 0x2_0000 else 0x1000));
      }
      Round(v, r.fat32, r.fixed, csize);
      r := Decide(r.fat32, r.fixed, csize, v);
    }
  }

  /** Plans for volumes of four sizes; the second is one whose first plan has too few clusters for FAT16. */
  lemma KnownPlans()
    ensures Chosen(Plan(Fat12, 1, 1, 9, 32, 2958), 3000)
    ensures Chosen(Plan(Fat12, 2, 1, 6, 32, 2025), 4090)
    ensures Chosen(Plan(Fat16, 16, 1, 245, 32, 62_482), 1_000_000)
    ensures Chosen(Plan(Fat32, 64, 32, 977, 0, 124_984), 8_000_000)
  {
  }

  // ---- What a mount makes of it ----------------------------------------------------------------

  /** FAT sub-type by the number of clusters; none above the largest FAT32. */
  function KindOf(clusters: nat): (k: FatKind)
  {
    if clusters <= MAX_FAT12 then Fat12 else if clusters <= MAX_FAT16 then Fat16 else Fat32
  }

  /** Bytes the FAT needs for n entries. */
  function TableBytes(kind: FatKind, n: nat): nat {
    match kind
    case Fat12 => n * 3 / 2 + n % 2
    case Fat16 => n * 2
    case Fat32 => n * 4
  }

  function GeometryOf(p: Plan, v: nat): Geometry {
    Geometry(p.kind, 1, p.csize, p.clusters + 2, p.fat, PARTITION, p.FatBase(), p.DataBase(), PARTITION + v)
  }

  lemma PlanClusters(p: Plan, v: nat)
    requires Acceptable(p, v)
    ensures p.System() <= v && p.clusters == (v - p.System()) / p.csize
    ensures MIN_CLUSTERS <= p.clusters <= v / p.csize && p.System() + p.csize * p.clusters <= v
  {
    var left := v - p.System();
    DivIs(p.csize * MIN_CLUSTERS, MIN_CLUSTERS, p.csize);
    DivMono(p.csize * MIN_CLUSTERS, left, p.csize);
    DivMono(left, v, p.csize);
    Quotient(left, p.csize);
  }

  /** The FAT planned for n clusters holds the entries of m <= n. */
  lemma TableFits(kind: FatKind, n: nat, m: nat)
    requires m <= n
    ensures FatSectors(kind, n) >= Sectors(TableBytes(kind, m + 2))
    ensures kind.Fits(m + 2, FatSectors(kind, n)) && FatSectors(kind, n) > 0
  {
    match kind
    case Fat12 => Table12Fits(n, m);
    case Fat16 =>
    case Fat32 =>
  }

  lemma Table12Fits(n: nat, m: nat)
    requires m <= n
    ensures Sectors((n * 3 + 1) / 2 + 3) >= Sectors((m + 2) * 3 / 2 + (m + 2) % 2)
    ensures 3 * (m + 2) <= 1024 * Sectors((n * 3 + 1) / 2 + 3)
  {
    hide Sectors;
    var a, b := (m + 2) * 3 / 2 + (m + 2) % 2, (n * 3 + 1) / 2 + 3;
    assert 3 * (m + 2) <= 2 * a <= 3 * m + 7;
    assert 3 * n + 6 <= 2 * b;
    assert m == n ==> a <= b;
    SectorsMono(a, b);
    SectorsMono(b, b);
  }

  lemma SectorsMono(a: nat, b: nat)
    requires a <= b
    ensures Sectors(a) <= Sectors(b) && a <= 512 * Sectors(a)
  {
  }

  /** A mount counts the same clusters, and finds the FAT large enough and every cluster inside the drive. */
  lemma PlanMounts(p: Plan, v: nat)
    requires Acceptable(p, v) && MIN_VOLUME <= v && PARTITION + v < 0x1_0000_0000
    ensures p.System() <= v && p.clusters == (v - p.System()) / p.csize
    ensures MIN_CLUSTERS <= p.clusters <= MAX_FAT32 && KindOf(p.clusters) == p.kind
    ensures p.fat >= Sectors(TableBytes(p.kind, p.clusters + 2))
    ensures !p.kind.Fat32? ==> p.fat < 0x1_0000
    ensures p.fat > 0 && p.rsv == (if p.kind.Fat32? then 32 else 1)
            && p.dir == (if p.kind.Fat32? then 0 else ROOT_SECTORS)
    ensures GeometryOf(p, v).Wf()
  {
    hide FatSectors, Sectors, TableBytes, FatKind.Fits;
    PlanClusters(p, v);
    TableFits(p.kind, v / p.csize, p.clusters);
    if !p.kind.Fat32? {
      SmallFat(p, v);
    }
  }

  lemma SmallFat(p: Plan, v: nat)
    requires Acceptable(p, v) && !p.kind.Fat32?
    ensures p.fat < 0x1_0000
  {
    hide Trial;
    TrialSized(p.csize, v);
    Quotient(v, p.csize);
  }
}
