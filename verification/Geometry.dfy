/** What mounting fixes about a volume: FAT sub-type, cluster size and region bases. */
module VolumeGeometry {

  const MAX_FAT12: nat := 0xFF5
  const MAX_FAT16: nat := 0xFFF5
  const MAX_FAT32: nat := 0x0FFF_FFF5

  datatype FatKind = Fat12 | Fat16 | Fat32 {

    function MaxClusters(): nat {
      match this
      case Fat12 => MAX_FAT12
      case Fat16 => MAX_FAT16
      case Fat32 => MAX_FAT32
    }

    /** Values an entry can hold. */
    function EntryLimit(): (m: nat)
      ensures m > MaxClusters() + 2
    {
      match this
      case Fat12 => 0x1000
      case Fat16 => 0x1_0000
      case Fat32 => 0x1000_0000
    }

    /** n entries fit in a FAT of the given number of sectors. */
    predicate Fits(n: nat, sectors: nat) {
      match this
      case Fat12 => 3 * n <= 1024 * sectors
      case Fat16 => n <= 256 * sectors
      case Fat32 => n <= 128 * sectors
    }
  }

  datatype Geometry = Geometry(
    kind: FatKind, nFats: nat, csize: nat, nFatent: nat, fsize: nat,
    volbase: nat, fatbase: nat, database: nat, total: nat)
  {
    /** The regions are in order and the FAT is large enough. */
    ghost predicate Layout() {
      && 1 <= nFats <= 2
      && 3 <= nFatent <= kind.MaxClusters() + 2
      && kind.Fits(nFatent, fsize)
      && volbase + (if kind.Fat32? then 1 else 0) < fatbase
      && fatbase + (if nFats == 2 then 2 * fsize else fsize) <= database <= total <= 0xFFFF_FFFF
    }

    /** Moreover every cluster lies inside the drive. */
    ghost predicate Wf() {
      && Layout()
      && csize in {1, 2, 4, 8, 16, 32, 64, 128}
      && database + csize * (nFatent - 2) <= total
    }

    predicate InFat(s: nat) {
      fatbase <= s < fatbase + fsize
    }

    /** The second FAT, and the FSInfo sector of a FAT32 volume: the engine ignores
        the outcome of writing these. */
    predicate Unchecked(s: nat) {
      || (nFats == 2 && fatbase + fsize <= s < fatbase + 2 * fsize)
      || (kind.Fat32? && s == volbase + 1)
    }

    predicate ValidCluster(c: nat) {
      2 <= c < nFatent
    }

    /** First sector of a valid cluster. */
    function FirstSector(c: nat): nat
      requires c >= 2
    {
      database + csize * (c - 2)
    }
  }
}
