/** The FSInfo sector of a FAT32 volume: its free cluster count and the cluster allocated last. */
module InfoSectors {
  import opened Bytes

  /** A count or a hint that is not known. */
  const UNKNOWN: nat := 0xFFFF_FFFF

  /** The sector the engine writes. */
  function FsInfo(free: nat, last: nat): Sector {
    var b := StWord(ZeroSector(), 510, 0xAA55);
    var c := StDword(StDword(b, 0, 0x4161_5252), 484, 0x6141_7272);
    StDword(StDword(c, 488, free), 492, last)
  }

  /** A sector carries the signatures. */
  predicate IsFsInfo(b: Sector) {
    LdWord(b, 510) == 0xAA55 && LdDword(b, 0) == 0x4161_5252 && LdDword(b, 484) == 0x6141_7272
  }

  function FsInfoFree(b: Sector): (n: nat)
    ensures n <= UNKNOWN
  {
    if IsFsInfo(b) then LdDword(b, 488) else UNKNOWN
  }

  function FsInfoLast(b: Sector): (n: nat)
    ensures n <= UNKNOWN
  {
    if IsFsInfo(b) then LdDword(b, 492) else UNKNOWN
  }

  /** What a mount reads from the sector. */
  ghost predicate Tells(b: Sector, free: nat, last: nat) {
    FsInfoFree(b) == free && FsInfoLast(b) == last
  }

  lemma StDwordApart(b: Sector, o: nat, v: nat, p: nat)
    requires o + 3 < 512 && p + 1 < 512 && (o + 4 <= p || p + 2 <= o)
    ensures LdWord(StDword(b, o, v), p) == LdWord(b, p)
    ensures p + 3 < 512 && (o + 4 <= p || p + 4 <= o) ==> LdDword(StDword(b, o, v), p) == LdDword(b, p)
  {
    if p + 3 < 512 && (o + 4 <= p || p + 4 <= o) {
      LdStDwordApart(b, o, v, p);
    }
  }

  /** What the engine writes is what a mount reads. */
  lemma FsInfoReads(free: nat, last: nat)
    requires free <= UNKNOWN && last <= UNKNOWN
    ensures Tells(FsInfo(free, last), free, last)
  {
    hide StWord, StDword, LdDword, LdWord, ZeroSector;
    var b := StWord(ZeroSector(), 510, 0xAA55);
    var c: Sector := StDword(b, 0, 0x4161_5252);
    var d: Sector := StDword(c, 484, 0x6141_7272);
    var e: Sector := StDword(d, 488, free);
    LdStDword(b, 0, 0x4161_5252);
    LdStDword(c, 484, 0x6141_7272);
    LdStDword(d, 488, free);
    LdStDword(e, 492, last);
    StDwordApart(b, 0, 0x4161_5252, 510);
    StDwordApart(c, 484, 0x6141_7272, 510);
    StDwordApart(d, 488, free, 510);
    StDwordApart(e, 492, last, 510);
    StDwordApart(c, 484, 0x6141_7272, 0);
    StDwordApart(d, 488, free, 0);
    StDwordApart(e, 492, last, 0);
    StDwordApart(d, 488, free, 484);
    StDwordApart(e, 492, last, 484);
    StDwordApart(e, 492, last, 488);
  }

  lemma DwordBytes(b: Sector, o: nat, v: nat)
    requires o + 3 < 512 && v <= UNKNOWN
    ensures var c := StDword(b, o, v);
            && c[o] as nat + 0x100 * c[o + 1] as nat + 0x1_0000 * c[o + 2] as nat + 0x100_0000 * c[o + 3] as nat == v
            && |c| == 512 && forall k :: 0 <= k < 512 && !(o <= k < o + 4) ==> c[k] == b[k]
  {
    LdStDword(b, o, v);
    hide StDword;
  }

  /** The bytes of the sector: "RRaA", "rrAa", the count and the hint, lowest byte first, and the mark at the end. */
  lemma FsInfoBytes(free: nat, last: nat)
    requires free <= UNKNOWN && last <= UNKNOWN
    ensures var b := FsInfo(free, last);
            && b[0] == b[1] == 0x52 && b[2] == 0x61 && b[3] == 0x41
            && b[484] == b[485] == 0x72 && b[486] == 0x41 && b[487] == 0x61 && b[510] == 0x55 && b[511] == 0xAA
            && b[488] as nat + 0x100 * b[489] as nat + 0x1_0000 * b[490] as nat + 0x100_0000 * b[491] as nat == free
            && b[492] as nat + 0x100 * b[493] as nat + 0x1_0000 * b[494] as nat + 0x100_0000 * b[495] as nat == last
            && forall k :: 0 <= k < 512 && (4 <= k < 484 || 496 <= k < 510) ==> b[k] == 0
  {
    var b := StWord(ZeroSector(), 510, 0xAA55);
    var c: Sector := StDword(b, 0, 0x4161_5252);
    var d: Sector := StDword(c, 484, 0x6141_7272);
    var e := StDword(d, 488, free);
    assert b[510] == 0x55 && b[511] == 0xAA && forall k :: 0 <= k < 510 ==> b[k] == 0;
    assert c[0] == c[1] == 0x52 && c[2] == 0x61 && c[3] == 0x41;
    assert d[484] == d[485] == 0x72 && d[486] == 0x41 && d[487] == 0x61;
    DwordBytes(b, 0, 0x4161_5252);
    DwordBytes(c, 484, 0x6141_7272);
    DwordBytes(d, 488, free);
    DwordBytes(e, 492, last);
    hide StDword, StWord;
  }
}
