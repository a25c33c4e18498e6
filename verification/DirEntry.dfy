/** The short-name directory entry that records a file's start cluster and size. */
module DirEntries {
  import opened Bytes
  import opened VolumeGeometry

  const DIR_ATTR: nat := 11
  const DIR_NTRES: nat := 12
  const AM_ARC: byte := 0x20
  const DIR_LST_ACC_DATE: nat := 18
  const DIR_FST_CLUS_HI: nat := 20
  const DIR_MOD_TIME: nat := 22
  const DIR_FST_CLUS_LO: nat := 26
  const DIR_FILE_SIZE: nat := 28
  /** The clock of the enclave is a constant. */
  const FAT_TIME: nat := 1

  /** Where an entry can start in a sector. */
  type EntryOfs = o: nat | o <= 480

  /** Start cluster in the entry at offset o of a sector; only FAT32 has the upper half. */
  function LdClust(kind: FatKind, b: Sector, o: EntryOfs): nat
  {
    LdWord(b, o + DIR_FST_CLUS_LO) + if kind.Fat32? then 0x1_0000 * LdWord(b, o + DIR_FST_CLUS_HI) else 0
  }

  function StClust(kind: FatKind, b: Sector, o: EntryOfs, cl: nat): Sector
  {
    var c := StWord(b, o + DIR_FST_CLUS_LO, cl % 0x1_0000);
    if kind.Fat32? then StWord(c, o + DIR_FST_CLUS_HI, cl / 0x1_0000) else c
  }

  function LdSize(b: Sector, o: EntryOfs): nat
  {
    LdDword(b, o + DIR_FILE_SIZE)
  }

  function Archived(attr: byte): byte {
    if attr as int / 32 % 2 == 1 then attr else attr + 32
  }

  /** The entry as f_sync rewrites it. */
  function Recorded(kind: FatKind, b: Sector, o: EntryOfs, sclust: nat, size: nat): (r: Sector)
  {
    var b1: Sector := b[o + DIR_ATTR := Archived(b[o + DIR_ATTR])];
    var b2 := StClust(kind, b1, o, sclust);
    var b3: Sector := StDword(b2, o + DIR_FILE_SIZE, size);
    var b4: Sector := StDword(b3, o + DIR_MOD_TIME, FAT_TIME);
    StWord(b4, o + DIR_LST_ACC_DATE, 0)
  }

  /** The clusters an entry of this kind can name. */
  function ClusterLimit(kind: FatKind): nat {
    if kind.Fat32? then 0x1_0000_0000 else 0x1_0000
  }

  lemma LdStClust(kind: FatKind, b: Sector, o: EntryOfs, cl: nat)
    requires cl < ClusterLimit(kind)
    ensures LdClust(kind, StClust(kind, b, o, cl), o) == cl
  {
  }

  /** What f_sync records is what f_open reads. */
  lemma RecordedReads(kind: FatKind, b: Sector, o: EntryOfs, sclust: nat, size: nat)
    requires sclust < ClusterLimit(kind) && size < 0x1_0000_0000
    ensures LdClust(kind, Recorded(kind, b, o, sclust, size), o) == sclust
    ensures LdSize(Recorded(kind, b, o, sclust, size), o) == size
    ensures var r := Recorded(kind, b, o, sclust, size);
            && LdWord(r, o + 26) == sclust % 0x1_0000 && (kind.Fat32? ==> LdWord(r, o + 20) == sclust / 0x1_0000)
            && LdDword(r, o + 28) == size
  {
    hide StDword, StWord, StClust;
    var b1: Sector := b[o + DIR_ATTR := Archived(b[o + DIR_ATTR])];
    var b2 := StClust(kind, b1, o, sclust);
    var b3: Sector := StDword(b2, o + DIR_FILE_SIZE, size);
    LdStClust(kind, b1, o, sclust);
    LdStDword(b2, o + DIR_FILE_SIZE, size);
  }

  /** Recording one entry leaves every other entry of the sector as it was. */
  lemma RecordedElsewhere(kind: FatKind, b: Sector, o: EntryOfs, sclust: nat, size: nat)
    ensures forall i :: 0 <= i < 512 && !(o <= i < o + 32) ==> Recorded(kind, b, o, sclust, size)[i] == b[i]
  {
  }

  /** r is a with the archive bit set. */
  ghost predicate SetsArchive(a: byte, r: byte) {
    forall k: nat :: k < 8 ==> Bit(r, k) == (k == 5 || Bit(a, k))
  }

  /** From b to d the entry at offset o was marked as written: its archive bit is set, and no other attribute changed;
      the time of the last change is the clock's, and the day of the last access is unknown. */
  ghost predicate MarkedWritten(b: Sector, d: Sector, o: EntryOfs) {
    && SetsArchive(b[o + DIR_ATTR], d[o + DIR_ATTR])
    && d[o + 22..o + 26] == [1, 0, 0, 0] && d[o + 18..o + 20] == [0, 0]
  }

  lemma RecordedMarks(kind: FatKind, b: Sector, o: EntryOfs, sclust: nat, size: nat)
    ensures MarkedWritten(b, Recorded(kind, b, o, sclust, size), o)
  {
    var d := Recorded(kind, b, o, sclust, size);
    assert d[o + DIR_ATTR] == Archived(b[o + DIR_ATTR]);
    ArchiveBit(b[o + DIR_ATTR]);
  }

  lemma ArchiveBit(a: byte)
    ensures SetsArchive(a, Archived(a))
  {
    var x := a as nat;
    assert Bit(x, 5) == Bit(x / 2, 4) == Bit(x / 4, 3) == Bit(x / 8, 2) == Bit(x / 16, 1) == Bit(x / 32, 0);
    assert Pow2(5) == 32;
    if !Bit(a, 5) {
      forall k: nat | k < 8
        ensures Bit(Archived(a), k) == (k == 5 || Bit(a, k))
      {
        SetBit(a, 5, k);
      }
    }
  }

  /** From b to c only the entry at offset o changed, and of it neither the names nor the attributes but for the archive
      bit. */
  ghost predicate SameName(b: Sector, c: Sector, o: EntryOfs) {
    && (forall i :: 0 <= i < 512 && !(o + DIR_ATTR <= i < o + 32) ==> c[i] == b[i])
    && c[o + DIR_NTRES] == b[o + DIR_NTRES]
    && (c[o + DIR_ATTR] == b[o + DIR_ATTR] || c[o + DIR_ATTR] == Archived(b[o + DIR_ATTR]))
  }

  lemma RecordedKeepsName(kind: FatKind, b: Sector, o: EntryOfs, sclust: nat, size: nat)
    ensures SameName(b, Recorded(kind, b, o, sclust, size), o)
  {
  }

  lemma SameNameTwice(a: Sector, b: Sector, c: Sector, o: EntryOfs)
    requires SameName(a, b, o) && SameName(b, c, o)
    ensures SameName(a, c, o)
  {
  }
}
