/** The boot sector f_mkfs writes, and what a mount reads from it. */
module BootSectors {
  import opened Bytes
  import opened FormatPlans
  import opened DirEntries

  const BPB_BYTS_PER_SEC: nat := 11
  const BPB_SEC_PER_CLUS: nat := 13
  const BPB_RSVD_SEC_CNT: nat := 14
  const BPB_NUM_FATS: nat := 16
  const BPB_ROOT_ENT_CNT: nat := 17
  const BPB_TOT_SEC16: nat := 19
  const BPB_FAT_SZ16: nat := 22
  const BPB_MEDIA: nat := 21
  const BPB_SEC_PER_TRK: nat := 24
  const BPB_NUM_HEADS: nat := 26
  const BPB_HIDD_SEC: nat := 28
  const BPB_TOT_SEC32: nat := 32
  const BPB_FAT_SZ32: nat := 36
  const BPB_FS_VER32: nat := 42
  const BPB_ROOT_CLUS32: nat := 44
  const BPB_FS_INFO32: nat := 48
  const BS_55AA: nat := 510
  const OEM_NAME: seq<byte> := [0x4D, 0x53, 0x44, 0x4F, 0x53, 0x35, 0x2E, 0x30]
  const BS_DRV_NUM: nat := 36
  const BS_BOOT_SIG: nat := 38
  const BS_VOL_ID: nat := 39
  const BS_VOL_LAB: nat := 43
  const BPB_BK_BOOT_SEC32: nat := 50
  const BS_DRV_NUM32: nat := 64
  const BS_BOOT_SIG32: nat := 66
  const BS_VOL_ID32: nat := 67
  const BS_VOL_LAB32: nat := 71
  const NO_NAME: seq<byte> := [0x4E, 0x4F, 0x20, 0x4E, 0x41, 0x4D, 0x45, 0x20, 0x20, 0x20, 0x20]
  const FAT_TAG: seq<byte> := [0x46, 0x41, 0x54, 0x20, 0x20, 0x20, 0x20, 0x20]
  const FAT32_TAG: seq<byte> := [0x46, 0x41, 0x54, 0x33, 0x32, 0x20, 0x20, 0x20]

  /** The fields of a boot sector a mount looks at. */
  datatype Bpb = Bpb(jump: byte, sign: nat, tag32: bool, bytsPerSec: nat, secPerClus: nat, rsvd: nat, nFats: nat,
                     rootEnt: nat, tot16: nat, fatSz16: nat, tot32: nat, fatSz32: nat, fsVer: nat, rootClus: nat,
                     fsInfo: nat)

  function ReadBpb(b: Sector): Bpb {
    Bpb(b[0], LdWord(b, BS_55AA), b[82..90] == FAT32_TAG, LdWord(b, BPB_BYTS_PER_SEC), b[BPB_SEC_PER_CLUS] as nat,
        LdWord(b, BPB_RSVD_SEC_CNT), b[BPB_NUM_FATS] as nat, LdWord(b, BPB_ROOT_ENT_CNT),
        LdWord(b, BPB_TOT_SEC16), LdWord(b, BPB_FAT_SZ16), LdDword(b, BPB_TOT_SEC32), LdDword(b, BPB_FAT_SZ32),
        LdWord(b, BPB_FS_VER32), LdDword(b, BPB_ROOT_CLUS32), LdWord(b, BPB_FS_INFO32))
  }

  /** What the fields of a formatted volume of v sectors say, but for fields that only FAT32 reads. */
  ghost predicate Describes(d: Bpb, p: Plan, v: nat) {
    && d.jump == 0xEB && d.sign == 0xAA55 && d.tag32 == p.kind.Fat32?
    && d.bytsPerSec == 512 && d.secPerClus == p.csize && d.rsvd == p.rsv && d.nFats == 1
    && d.rootEnt == (if p.kind.Fat32? then 0 else ROOT_ENTRIES)
    && d.tot16 == (if v < 0x1_0000 then v else 0) && d.tot32 == (if v < 0x1_0000 then 0 else v)
    && d.fatSz16 == (if p.kind.Fat32? then 0 else p.fat)
    && (p.kind.Fat32? ==> d.fatSz32 == p.fat && d.fsVer == 0 && d.rootClus == 2 && d.fsInfo == 1)
  }

  /** Bytes [from, to) are zero. */
  ghost predicate ZeroBytes(b: Sector, from: nat, to: nat)
    requires to <= 512
  {
    forall k :: from <= k < to ==> b[k] == 0
  }

  /** Bytes 0 to 18: jump code, name of the formatter, sector and cluster size, reserved sectors, one FAT, entries of
      the fixed root directory. */
  ghost predicate HasStart(b: Sector, p: Plan) {
    && b[..3] == [0xEB, 0xFE, 0x90] && b[3..11] == OEM_NAME && LdWord(b, 11) == 512 && b[13] as nat == p.csize
    && LdWord(b, 14) == p.rsv && b[16] == 1 && LdWord(b, 17) == if p.kind.Fat32? then 0 else 512
  }

  /** Bytes 19 to 35 but for the 16-bit FAT size: volume size, medium, the drive's shape and the volume's place. */
  ghost predicate HasSizes(b: Sector, v: nat) {
    && LdWord(b, 19) == (if v <= 0xFFFF then v else 0) && b[21] == 0xF8 && LdWord(b, 24) == 63 && LdWord(b, 26) == 255
    && LdDword(b, 28) == 63 && LdDword(b, 32) == if v <= 0xFFFF then 0 else v
  }

  /** The rest of a FAT32 boot sector: FAT size, version, root cluster, FSInfo at sector 1 and the backup at 6, drive
      number, serial number, label and type, and the mark at the end. */
  ghost predicate HasTail32(b: Sector, fat: nat, vsn: nat) {
    && LdWord(b, 22) == 0 && LdDword(b, 36) == fat && ZeroBytes(b, 40, 44) && LdDword(b, 44) == 2 && LdWord(b, 48) == 1
    && LdWord(b, 50) == 6 && ZeroBytes(b, 52, 64) && b[64] == 0x80 && b[65] == 0 && b[66] == 0x29
    && LdDword(b, 67) == vsn % 0x1_0000_0000 && b[71..82] == NO_NAME && b[82..90] == FAT32_TAG && ZeroBytes(b, 90, 510)
    && LdWord(b, 510) == 0xAA55
  }

  /** The rest of a FAT12 or FAT16 boot sector: FAT size, drive number, serial number, label and type, and the mark. */
  ghost predicate HasTail16(b: Sector, fat: nat, vsn: nat) {
    && LdWord(b, 22) == fat && b[36] == 0x80 && b[37] == 0 && b[38] == 0x29 && LdDword(b, 39) == vsn % 0x1_0000_0000
    && b[43..54] == NO_NAME && b[54..62] == FAT_TAG && ZeroBytes(b, 62, 510) && LdWord(b, 510) == 0xAA55
  }

  /** The bytes of a text. */
  ghost function Text(s: string): seq<byte>
    requires forall k :: 0 <= k < |s| ==> s[k] as int < 0x80
  {
    seq(|s|, k requires 0 <= k < |s| => s[k] as int)
  }

  lemma Names()
    ensures OEM_NAME == Text("MSDOS5.0") && NO_NAME == Text("NO NAME    ")
    ensures FAT_TAG == Text("FAT     ") && FAT32_TAG == Text("FAT32   ")
  {
  }

  /** All bytes of the boot sector of a formatted volume of v sectors. */
  ghost predicate IsVbr(b: Sector, p: Plan, v: nat) {
    && HasStart(b, p) && HasSizes(b, v)
    && if p.kind.Fat32? then HasTail32(b, p.fat, v + FAT_TIME) else HasTail16(b, p.fat, v + FAT_TIME)
  }

  /** The first fields of the boot sector. */
  method BuildStart(p: Plan) returns (b: Sector)
    requires p.csize < 256 && p.rsv < 0x1_0000
    ensures HasStart(b, p) && ZeroBytes(b, 19, 512)
  {
    hide StWord, StDword;
    b := ZeroSector();
    b := Overwritten(b, 0, [0xEB, 0xFE, 0x90] + OEM_NAME);
    b := StWord(b, BPB_BYTS_PER_SEC, 512);
    b := b[BPB_SEC_PER_CLUS := p.csize];
    b := StWord(b, BPB_RSVD_SEC_CNT, p.rsv);
    b := b[BPB_NUM_FATS := 1];
    b := StWord(b, BPB_ROOT_ENT_CNT, if p.kind.Fat32? then 0 else ROOT_ENTRIES);
  }

  /** The volume size and the fields of the drive's shape. */
  method BuildSizes(a: Sector, v: nat) returns (b: Sector)
    requires v < 0x1_0000_0000 && ZeroBytes(a, 19, 512)
    ensures b[..19] == a[..19] && HasSizes(b, v) && ZeroBytes(b, 22, 24) && ZeroBytes(b, 36, 512)
  {
    hide StWord, StDword;
    b := a;
    if v < 0x1_0000 {
      b := StWord(b, BPB_TOT_SEC16, v);
    } else {
      LdStDword(b, BPB_TOT_SEC32, v);
      b := StDword(b, BPB_TOT_SEC32, v);
    }
    b := b[BPB_MEDIA := 0xF8];
    b := StWord(b, BPB_SEC_PER_TRK, 63);
    b := StWord(b, BPB_NUM_HEADS, 255);
    LdStDword(b, BPB_HIDD_SEC, PARTITION);
    b := StDword(b, BPB_HIDD_SEC, PARTITION);
  }

  /** The rest of a FAT32 boot sector. */
  method BuildTail32(a: Sector, fat: nat, vsn: nat) returns (b: Sector)
    requires fat < 0x1_0000_0000 && ZeroBytes(a, 22, 24) && ZeroBytes(a, 36, 512)
    ensures b[..36] == a[..36] && HasTail32(b, fat, vsn)
  {
    hide StWord, StDword;
    LdStDword(a, BS_VOL_ID32, vsn);
    b := StDword(a, BS_VOL_ID32, vsn);
    LdStDword(b, BPB_FAT_SZ32, fat);
    b := StDword(b, BPB_FAT_SZ32, fat);
    LdStDword(b, BPB_ROOT_CLUS32, 2);
    b := StDword(b, BPB_ROOT_CLUS32, 2);
    b := StWord(b, BPB_FS_INFO32, 1);
    b := StWord(b, BPB_BK_BOOT_SEC32, 6);
    b := b[BS_DRV_NUM32 := 0x80][BS_BOOT_SIG32 := 0x29];
    b := Overwritten(b, BS_VOL_LAB32, NO_NAME + FAT32_TAG);
    b := StWord(b, BS_55AA, 0xAA55);
  }

  /** The rest of a FAT12 or FAT16 boot sector. */
  method BuildTail16(a: Sector, fat: nat, vsn: nat) returns (b: Sector)
    requires fat < 0x1_0000 && ZeroBytes(a, 36, 512)
    ensures b[..22] == a[..22] && b[24..36] == a[24..36] && HasTail16(b, fat, vsn)
  {
    hide StWord, StDword;
    LdStDword(a, BS_VOL_ID, vsn);
    b := StDword(a, BS_VOL_ID, vsn);
    b := StWord(b, BPB_FAT_SZ16, fat);
    b := b[BS_DRV_NUM := 0x80][BS_BOOT_SIG := 0x29];
    b := Overwritten(b, BS_VOL_LAB, NO_NAME + FAT_TAG);
    b := StWord(b, BS_55AA, 0xAA55);
  }

  lemma StartKept(a: Sector, b: Sector, p: Plan)
    requires HasStart(a, p) && b[..19] == a[..19]
    ensures HasStart(b, p)
  {
    assert forall k :: 0 <= k < 19 ==> b[k] == b[..19][k] == a[..19][k] == a[k];
  }

  lemma SizesKept(a: Sector, b: Sector, v: nat)
    requires HasSizes(a, v) && b[19..22] == a[19..22] && b[24..36] == a[24..36]
    ensures HasSizes(b, v)
  {
    assert forall k :: 19 <= k < 22 ==> b[k] == b[19..22][k - 19] == a[19..22][k - 19] == a[k];
    assert forall k :: 24 <= k < 36 ==> b[k] == b[24..36][k - 24] == a[24..36][k - 24] == a[k];
  }

  /** The boot sector of a planned volume. */
  method BuildVbr(p: Plan, v: nat) returns (b: Sector)
    requires p.csize < 256 && p.rsv < 0x1_0000 && v < 0x1_0000_0000
    requires p.fat < if p.kind.Fat32? then 0x1_0000_0000 else 0x1_0000
    ensures IsVbr(b, p, v)
  {
    hide HasStart, HasSizes, HasTail32, HasTail16;
    var a := BuildStart(p);
    b := BuildSizes(a, v);
    StartKept(a, b, p);
    a := b;
    var vsn := v + FAT_TIME;
    if p.kind.Fat32? {
      b := BuildTail32(b, p.fat, vsn);
      assert b[..19] == b[..36][..19] && b[19..22] == b[..36][19..22] && b[24..36] == b[..36][24..36];
      assert a[..19] == a[..36][..19] && a[19..22] == a[..36][19..22] && a[24..36] == a[..36][24..36];
    } else {
      b := BuildTail16(b, p.fat, vsn);
      assert b[..19] == b[..22][..19] && b[19..22] == b[..22][19..];
      assert a[..19] == a[..22][..19] && a[19..22] == a[..22][19..];
    }
    StartKept(a, b, p);
    SizesKept(a, b, v);
  }

  /** What a mount reads from such a boot sector describes the plan. */
  lemma VbrDescribes(b: Sector, p: Plan, v: nat)
    requires IsVbr(b, p, v)
    ensures Describes(ReadBpb(b), p, v)
  {
    assert b[..3][0] == 0xEB;
    if !p.kind.Fat32? {
      assert b[82..90][0] != FAT32_TAG[0];
    }
  }
}
