/** Packed FAT12/16/32 entries over the sectors of the first FAT, as a map from cluster to value. */
module FatEntries {
  import opened Bytes
  import opened VolumeGeometry

  /** Where the first FAT lies: entries n, sectors [base, base + size). */
  datatype Table = Table(kind: FatKind, n: nat, base: nat, size: nat) {
    ghost predicate On(v: seq<Sector>) {
      && kind.Fits(n, size)
      && base + size <= |v|
    }

    predicate Has(c: nat) {
      c < n
    }
  }

  function FatByte(t: Table, v: seq<Sector>, k: nat): byte
    requires t.On(v) && k < 512 * t.size
  {
    v[t.base + k / 512][k % 512]
  }

  function SetFatByte(t: Table, v: seq<Sector>, k: nat, x: byte): (r: seq<Sector>)
    requires t.On(v) && k < 512 * t.size
    ensures t.On(r)
  {
    var s := t.base + k / 512;
    v[s := v[s][k % 512 := x]]
  }

  lemma SetFatByteAt(t: Table, v: seq<Sector>, k: nat, x: byte, j: nat)
    requires t.On(v) && k < 512 * t.size && j < 512 * t.size
    ensures FatByte(t, SetFatByte(t, v, k, x), j) == if j == k then x else FatByte(t, v, j)
  {
  }

  // ---- 12-bit entries: two entries share three bytes -------------------------------------------

  /** Byte offset of a 12-bit entry. */
  function Offset12(c: nat): nat {
    c + c / 2
  }

  function Get12(c: nat, b0: byte, b1: byte): (e: nat)
    ensures e < 0x1000
  {
    var w := b0 as int + 0x100 * (b1 as int);
    if c % 2 == 1 then w / 16 else w % 0x1000
  }

  /** First byte after storing val: an odd entry shares it with its predecessor. */
  function First12(c: nat, b0: byte, val: nat): byte {
    if c % 2 == 1 then b0 as int % 16 + val % 16 * 16 else val % 256
  }

  /** Second byte after storing val: an even entry shares it with its successor. */
  function Second12(c: nat, b1: byte, val: nat): byte {
    if c % 2 == 1 then val / 16 % 256 else b1 as int / 16 * 16 + val / 256 % 16
  }

  lemma Nibbles(val: nat)
    ensures val % 256 == val % 16 + 16 * (val / 16 % 16)
    ensures val / 16 % 256 == val / 16 % 16 + 16 * (val / 256 % 16)
    ensures val % 0x1000 == val % 16 + 16 * (val / 16 % 16) + 256 * (val / 256 % 16)
  {
    var q := val / 16;
    var r := q / 16;
    assert val / 256 == r;
    assert val == 16 * q + val % 16 && q == 16 * r + q % 16 && r == 16 * (r / 16) + r % 16;
  }

  lemma OddStored(b: nat, val: nat)
    ensures (b % 16 + val % 16 * 16 + 0x100 * (val / 16 % 256)) / 16 == val % 0x1000
  {
    Nibbles(val);
    var w := val % 16 + 16 * (val / 16 % 256);
    assert b % 16 + val % 16 * 16 + 0x100 * (val / 16 % 256) == b % 16 + 16 * w;
  }

  lemma EvenStored(b: nat, val: nat)
    ensures (val % 256 + 0x100 * (b / 16 * 16 + val / 256 % 16)) % 0x1000 == val % 0x1000
  {
    Nibbles(val);
    var w := val % 256 + 0x100 * (val / 256 % 16);
    assert val % 256 + 0x100 * (b / 16 * 16 + val / 256 % 16) == w + 0x1000 * (b / 16);
  }

  lemma Get12Stored(c: nat, b0: byte, b1: byte, val: nat)
    ensures Get12(c, First12(c, b0, val), Second12(c, b1, val)) == val % 0x1000
  {
    if c % 2 == 1 {
      OddStored(b0, val);
    } else {
      EvenStored(b1, val);
    }
  }

  lemma ModUnit(w: nat, k: nat)
    requires w < 0x1000
    ensures (w + 0x1000 * k) % 0x1000 == w
  {
  }

  lemma LowNibble(x: nat, b: nat, u: nat)
    requires x < 256
    ensures (x + 0x100 * (b % 16 + u * 16)) % 0x1000 == (x + 0x100 * b) % 0x1000
  {
    var w := x + 0x100 * (b % 16);
    ModUnit(w, b / 16);
    ModUnit(w, u);
    assert b == 16 * (b / 16) + b % 16;
  }

  /** Storing an odd entry keeps the nibble of the even entry before it. */
  lemma Get12Before(c: nat, b: byte, x: byte, val: nat)
    requires c % 2 == 1
    ensures Get12(c - 1, x, First12(c, b, val)) == Get12(c - 1, x, b)
  {
    LowNibble(x, b, val % 16);
  }

  /** Storing an even entry keeps the nibble of the odd entry after it. */
  lemma Get12After(c: nat, b: byte, x: byte, val: nat)
    requires c % 2 == 0
    ensures Get12(c + 1, Second12(c, b, val), x) == Get12(c + 1, b, x)
  {
  }

  function Entry12(t: Table, v: seq<Sector>, c: nat): (e: nat)
    requires t.On(v) && t.kind.Fat12? && t.Has(c)
    ensures e < 0x1000
  {
    Get12(c, FatByte(t, v, Offset12(c)), FatByte(t, v, Offset12(c) + 1))
  }

  lemma Offset12Apart(c: nat, d: nat)
    requires c != d
    ensures Offset12(c) != Offset12(d)
    ensures Offset12(d) == Offset12(c) + 1 ==> c % 2 == 0 && d == c + 1
  {
  }

  /** The image once only the first byte of the entry has been stored. */
  function PutHalf12(t: Table, v: seq<Sector>, c: nat, val: nat): (r: seq<Sector>)
    requires t.On(v) && t.kind.Fat12? && t.Has(c)
    ensures t.On(r)
  {
    SetFatByte(t, v, Offset12(c), First12(c, FatByte(t, v, Offset12(c)), val))
  }

  function Put12(t: Table, v: seq<Sector>, c: nat, val: nat): (r: seq<Sector>)
    requires t.On(v) && t.kind.Fat12? && t.Has(c)
    ensures t.On(r)
  {
    var h := PutHalf12(t, v, c, val);
    SetFatByte(t, h, Offset12(c) + 1, Second12(c, FatByte(t, h, Offset12(c) + 1), val))
  }

  /** A half-stored entry damages no other entry. */
  lemma PutHalf12Other(t: Table, v: seq<Sector>, c: nat, val: nat, d: nat)
    requires t.On(v) && t.kind.Fat12? && t.Has(c) && t.Has(d) && d != c
    ensures Entry12(t, PutHalf12(t, v, c, val), d) == Entry12(t, v, d)
  {
    var b := FatByte(t, v, Offset12(c));
    var x := First12(c, b, val);
    Offset12Apart(d, c);
    SetFatByteAt(t, v, Offset12(c), x, Offset12(d));
    SetFatByteAt(t, v, Offset12(c), x, Offset12(d) + 1);
    if Offset12(d) + 1 == Offset12(c) {
      Get12Before(c, b, FatByte(t, v, Offset12(d)), val);
    }
  }

  lemma Put12Same(t: Table, v: seq<Sector>, c: nat, val: nat)
    requires t.On(v) && t.kind.Fat12? && t.Has(c)
    ensures Entry12(t, Put12(t, v, c, val), c) == val % 0x1000
  {
    var o := Offset12(c);
    var h := PutHalf12(t, v, c, val);
    var x, y := First12(c, FatByte(t, v, o), val), Second12(c, FatByte(t, h, o + 1), val);
    SetFatByteAt(t, v, o, x, o);
    SetFatByteAt(t, h, o + 1, y, o);
    SetFatByteAt(t, h, o + 1, y, o + 1);
    Get12Stored(c, FatByte(t, v, o), FatByte(t, h, o + 1), val);
  }

  /** Changing one byte that is not the entry's, or only its neighbour's nibble, keeps the entry. */
  lemma Entry12AfterSet(t: Table, v: seq<Sector>, k: nat, x: byte, d: nat)
    requires t.On(v) && t.kind.Fat12? && t.Has(d) && k < 512 * t.size
    requires k != Offset12(d) + 1
    requires k == Offset12(d) ==> Get12(d, x, FatByte(t, v, k + 1)) == Get12(d, FatByte(t, v, k), FatByte(t, v, k + 1))
    ensures Entry12(t, SetFatByte(t, v, k, x), d) == Entry12(t, v, d)
  {
    SetFatByteAt(t, v, k, x, Offset12(d));
    SetFatByteAt(t, v, k, x, Offset12(d) + 1);
  }

  lemma Put12Other(t: Table, v: seq<Sector>, c: nat, val: nat, d: nat)
    requires t.On(v) && t.kind.Fat12? && t.Has(c) && t.Has(d) && d != c
    ensures Entry12(t, Put12(t, v, c, val), d) == Entry12(t, v, d)
  {
    hide SetFatByte;
    var k := Offset12(c) + 1;
    var h := PutHalf12(t, v, c, val);
    PutHalf12Other(t, v, c, val, d);
    Offset12Apart(c, d);
    if k == Offset12(d) {
      Get12After(c, FatByte(t, h, k), FatByte(t, h, k + 1), val);
    }
    Entry12AfterSet(t, h, k, Second12(c, FatByte(t, h, k), val), d);
  }

  // ---- 16-bit and 32-bit entries ---------------------------------------------------------------

  function Entry16(t: Table, v: seq<Sector>, c: nat): (e: nat)
    requires t.On(v) && t.kind.Fat16? && t.Has(c)
    ensures e < 0x1_0000
  {
    LdWord(v[t.base + c / 256], c % 256 * 2)
  }

  function Put16(t: Table, v: seq<Sector>, c: nat, val: nat): (r: seq<Sector>)
    requires t.On(v) && t.kind.Fat16? && t.Has(c)
    ensures t.On(r)
  {
    var s := t.base + c / 256;
    v[s := StWord(v[s], c % 256 * 2, val % 0x1_0000)]
  }

  lemma Word2Apart(c: nat, d: nat)
    requires c != d && c / 256 == d / 256
    ensures c % 256 * 2 + 2 <= d % 256 * 2 || d % 256 * 2 + 2 <= c % 256 * 2
  {
  }

  lemma Put16At(t: Table, v: seq<Sector>, c: nat, val: nat, d: nat)
    requires t.On(v) && t.kind.Fat16? && t.Has(c) && t.Has(d)
    ensures Entry16(t, Put16(t, v, c, val), d) == if d == c then val % 0x1_0000 else Entry16(t, v, d)
  {
    if c != d && c / 256 == d / 256 {
      Word2Apart(c, d);
    }
  }

  /** The doubleword a FAT32 entry becomes: the top four bits stay. */
  function Merged32(old32: nat, val: nat): (m: nat)
    requires old32 < 0x1_0000_0000
    ensures m < 0x1_0000_0000 && m % 0x1000_0000 == val % 0x1000_0000
    ensures m / 0x1000_0000 == old32 / 0x1000_0000
  {
    val % 0x1000_0000 + old32 / 0x1000_0000 * 0x1000_0000
  }

  /** The raw doubleword of an entry, reserved bits included. */
  function Raw32(t: Table, v: seq<Sector>, c: nat): (e: nat)
    requires t.On(v) && t.kind.Fat32? && t.Has(c)
    ensures e < 0x1_0000_0000
  {
    LdDword(v[t.base + c / 128], c % 128 * 4)
  }

  function StoreRaw32(t: Table, v: seq<Sector>, c: nat, raw: nat): (r: seq<Sector>)
    requires t.On(v) && t.kind.Fat32? && t.Has(c)
    ensures t.On(r)
  {
    var s := t.base + c / 128;
    v[s := StDword(v[s], c % 128 * 4, raw)]
  }

  function Put32(t: Table, v: seq<Sector>, c: nat, val: nat): (r: seq<Sector>)
    requires t.On(v) && t.kind.Fat32? && t.Has(c)
    ensures t.On(r)
  {
    StoreRaw32(t, v, c, Merged32(Raw32(t, v, c), val))
  }

  lemma Word4Apart(c: nat, d: nat)
    requires c != d && c / 128 == d / 128
    ensures c % 128 * 4 + 4 <= d % 128 * 4 || d % 128 * 4 + 4 <= c % 128 * 4
  {
  }

  lemma StoreRaw32Same(t: Table, v: seq<Sector>, c: nat, raw: nat)
    requires t.On(v) && t.kind.Fat32? && t.Has(c)
    ensures Raw32(t, StoreRaw32(t, v, c, raw), c) == raw % 0x1_0000_0000
  {
    LdStDword(v[t.base + c / 128], c % 128 * 4, raw);
  }

  lemma StoreRaw32Other(t: Table, v: seq<Sector>, c: nat, raw: nat, d: nat)
    requires t.On(v) && t.kind.Fat32? && t.Has(c) && t.Has(d) && c != d
    ensures Raw32(t, StoreRaw32(t, v, c, raw), d) == Raw32(t, v, d)
  {
    if c / 128 == d / 128 {
      Word4Apart(c, d);
      LdStDwordApart(v[t.base + c / 128], c % 128 * 4, raw, d % 128 * 4);
    }
  }

  lemma Put32At(t: Table, v: seq<Sector>, c: nat, val: nat, d: nat)
    requires t.On(v) && t.kind.Fat32? && t.Has(c) && t.Has(d)
    ensures Raw32(t, Put32(t, v, c, val), d) == if d == c then Merged32(Raw32(t, v, c), val) else Raw32(t, v, d)
  {
    hide Raw32, StoreRaw32, Merged32;
    var raw := Merged32(Raw32(t, v, c), val);
    if d == c {
      StoreRaw32Same(t, v, c, raw);
    } else {
      StoreRaw32Other(t, v, c, raw, d);
    }
  }

  // ---- The FAT as a map ------------------------------------------------------------------------

  /** Value of the entry of cluster c. */
  function Entry(t: Table, v: seq<Sector>, c: nat): (e: nat)
    requires t.On(v) && t.Has(c)
    ensures e < t.kind.EntryLimit()
  {
    match t.kind
    case Fat12 => Entry12(t, v, c)
    case Fat16 => Entry16(t, v, c)
    case Fat32 => Raw32(t, v, c) % 0x1000_0000
  }

  /** The image after storing val in the entry of cluster c. */
  function PutEntry(t: Table, v: seq<Sector>, c: nat, val: nat): (r: seq<Sector>)
    requires t.On(v) && t.Has(c)
    ensures t.On(r)
  {
    match t.kind
    case Fat12 => Put12(t, v, c, val)
    case Fat16 => Put16(t, v, c, val)
    case Fat32 => Put32(t, v, c, val)
  }

  /** One value per entry; the first two entries are reserved and belong to no cluster. */
  function FatOf(t: Table, v: seq<Sector>): (f: seq<nat>)
    requires t.On(v)
    ensures |f| == t.n
    ensures forall c :: 0 <= c < |f| ==> f[c] == Entry(t, v, c)
  {
    seq(t.n, c requires 0 <= c < t.n => Entry(t, v, c))
  }

  /** The two images differ in sectors of the first FAT only. */
  ghost predicate SameOutsideFat(t: Table, v: seq<Sector>, w: seq<Sector>) {
    |v| == |w| && forall s :: 0 <= s < |v| && !(t.base <= s < t.base + t.size) ==> v[s] == w[s]
  }

  lemma SameAsItself(t: Table, v: seq<Sector>)
    ensures SameOutsideFat(t, v, v)
  {
  }

  lemma PutEntryFrame(t: Table, v: seq<Sector>, c: nat, val: nat)
    requires t.On(v) && t.Has(c)
    ensures SameOutsideFat(t, v, PutEntry(t, v, c, val))
    ensures t.kind.Fat12? ==> SameOutsideFat(t, v, PutHalf12(t, v, c, val))
  {
  }

  /** The two tables agree except perhaps at c. */
  ghost predicate SameExcept(f: seq<nat>, h: seq<nat>, c: nat) {
    |f| == |h| && forall d :: 0 <= d < |f| && d != c ==> f[d] == h[d]
  }

  lemma PutEntryAt(t: Table, v: seq<Sector>, c: nat, val: nat, d: nat)
    requires t.On(v) && t.Has(c) && t.Has(d)
    ensures Entry(t, PutEntry(t, v, c, val), d) == if d == c then val % t.kind.EntryLimit() else Entry(t, v, d)
  {
    match t.kind
    case Fat12 => if d == c { Put12Same(t, v, c, val); } else { Put12Other(t, v, c, val, d); }
    case Fat16 => Put16At(t, v, c, val, d);
    case Fat32 => Put32At(t, v, c, val, d);
  }

  /** Storing an entry is a map update: the value truncated to the entry width at c, nothing else. */
  lemma PutEntryIsMapUpdate(t: Table, v: seq<Sector>, c: nat, val: nat)
    requires t.On(v) && t.Has(c)
    ensures FatOf(t, PutEntry(t, v, c, val)) == FatOf(t, v)[c := val % t.kind.EntryLimit()]
  {
    forall d | t.Has(d)
      ensures Entry(t, PutEntry(t, v, c, val), d) == if d == c then val % t.kind.EntryLimit() else Entry(t, v, d)
    {
      PutEntryAt(t, v, c, val, d);
    }
  }

  lemma PutHalf12KeepsOthers(t: Table, v: seq<Sector>, c: nat, val: nat)
    requires t.On(v) && t.kind.Fat12? && t.Has(c)
    ensures SameExcept(FatOf(t, v), FatOf(t, PutHalf12(t, v, c, val)), c)
  {
    forall d | t.Has(d) && d != c
      ensures Entry(t, PutHalf12(t, v, c, val), d) == Entry(t, v, d)
    {
      PutHalf12Other(t, v, c, val, d);
    }
  }

  /** FAT32 keeps the four reserved bits of every entry, the stored one included. */
  lemma PutEntryKeepsReservedBits(t: Table, v: seq<Sector>, c: nat, val: nat, d: nat)
    requires t.On(v) && t.kind.Fat32? && t.Has(c) && t.Has(d)
    ensures Raw32(t, PutEntry(t, v, c, val), d) / 0x1000_0000 == Raw32(t, v, d) / 0x1000_0000
  {
    Put32At(t, v, c, val, d);
  }

  ghost predicate SameFatSectors(t: Table, v: seq<Sector>, w: seq<Sector>)
    requires t.On(v) && t.On(w)
  {
    forall s :: t.base <= s < t.base + t.size ==> v[s] == w[s]
  }

  lemma FatByteFrame(t: Table, v: seq<Sector>, w: seq<Sector>, k: nat)
    requires t.On(v) && t.On(w) && SameFatSectors(t, v, w) && k < 512 * t.size
    ensures FatByte(t, v, k) == FatByte(t, w, k)
  {
  }

  lemma EntryFrame(t: Table, v: seq<Sector>, w: seq<Sector>, c: nat)
    requires t.On(v) && t.On(w) && SameFatSectors(t, v, w) && t.Has(c)
    ensures Entry(t, v, c) == Entry(t, w, c)
  {
    match t.kind
    case Fat12 =>
      FatByteFrame(t, v, w, Offset12(c));
      FatByteFrame(t, v, w, Offset12(c) + 1);
    case Fat16 => assert v[t.base + c / 256] == w[t.base + c / 256];
    case Fat32 => assert v[t.base + c / 128] == w[t.base + c / 128];
  }

  /** The FAT is read from the sectors of the first FAT alone. */
  lemma FatFrame(t: Table, v: seq<Sector>, w: seq<Sector>)
    requires t.On(v) && t.On(w) && SameFatSectors(t, v, w)
    ensures FatOf(t, v) == FatOf(t, w)
  {
    forall c | t.Has(c)
      ensures Entry(t, v, c) == Entry(t, w, c)
    {
      EntryFrame(t, v, w, c);
    }
  }

  // ---- What is where ---------------------------------------------------------------------------

  /** Bits from one entry to the next. */
  function Spacing(kind: FatKind): nat {
    match kind case Fat12 => 12 case Fat16 => 16 case Fat32 => 32
  }

  /** Bit i of the FAT, from the lowest bit of its first byte on. */
  ghost predicate FatBit(t: Table, v: seq<Sector>, i: nat)
    requires t.On(v) && i / 8 < 512 * t.size
  {
    Bit(FatByte(t, v, i / 8), i % 8)
  }

  lemma Powers()
    ensures Pow2(4) == 0x10 && Pow2(8) == 0x100 && Pow2(12) == 0x1000 && Pow2(16) == 0x1_0000
    ensures Pow2(24) == 0x100_0000 && Pow2(28) == 0x1000_0000
  {
    assert Pow2(2) == 4 && Pow2(4) == 0x10 && Pow2(6) == 0x40 && Pow2(8) == 0x100 && Pow2(10) == 0x400;
    assert Pow2(12) == 0x1000 && Pow2(14) == 0x4000 && Pow2(16) == 0x1_0000 && Pow2(18) == 0x4_0000;
    assert Pow2(20) == 0x10_0000 && Pow2(22) == 0x40_0000 && Pow2(24) == 0x100_0000 && Pow2(26) == 0x400_0000;
  }

  /** The bits of two bytes. */
  lemma WordBits(b0: byte, b1: byte, k: nat)
    requires k < 16
    ensures Bit(b0 as int + 0x100 * b1 as int, k) == if k < 8 then Bit(b0, k) else Bit(b1, k - 8)
  {
    Powers();
    JoinedBits(b0, b1, 8, k);
  }

  lemma BitOf12(t: Table, v: seq<Sector>, c: nat, k: nat)
    requires t.On(v) && t.Has(c) && t.kind.Fat12? && k < 12
    ensures (12 * c + k) / 8 < 512 * t.size && Bit(Entry12(t, v, c), k) == FatBit(t, v, 12 * c + k)
  {
    hide Bit, Pow2;
    Powers();
    var o := Offset12(c);
    var b0, b1 := FatByte(t, v, o), FatByte(t, v, o + 1);
    var w := b0 as int + 0x100 * b1 as int;
    if c % 2 == 1 {
      JoinedBits(w % 16, w / 16, 4, k + 4);
    } else {
      JoinedBits(w % 0x1000, w / 0x1000, 12, k);
    }
    hide FatByte;
    var j := if c % 2 == 1 then k + 4 else k;
    WordBits(b0, b1, j);
    assert 12 * c + k == 8 * o + j;
    assert (12 * c + k) / 8 == o + j / 8 && (12 * c + k) % 8 == j % 8;
  }

  /** The bits of a word or double word of a sector. */
  lemma SectorBits(s: Sector, o: nat, k: nat)
    requires o + (if k < 16 then 1 else 3) < 512 && k < 32
    ensures k < 16 ==> Bit(LdWord(s, o), k) == Bit(s[o + k / 8], k % 8)
    ensures o + 3 < 512 ==> Bit(LdDword(s, o), k) == Bit(s[o + k / 8], k % 8)
  {
    hide Bit, Pow2;
    Powers();
    if k < 16 {
      WordBits(s[o], s[o + 1], k);
    }
    if o + 3 < 512 {
      JoinedBits(LdWord(s, o), LdWord(s, o + 2), 16, k);
      if k >= 16 {
        WordBits(s[o + 2], s[o + 3], k - 16);
      }
    }
  }

  lemma BitOf16(t: Table, v: seq<Sector>, c: nat, k: nat)
    requires t.On(v) && t.Has(c) && t.kind.Fat16? && k < 16
    ensures (16 * c + k) / 8 < 512 * t.size && Bit(Entry16(t, v, c), k) == FatBit(t, v, 16 * c + k)
  {
    hide Bit, LdWord;
    SectorBits(v[t.base + c / 256], c % 256 * 2, k);
    BytePlace(c, 2, k);
  }

  lemma BytePlace(c: nat, n: nat, k: nat)
    requires n in {2, 4} && k < 8 * n
    ensures (8 * n * c + k) / 8 == n * c + k / 8 && (8 * n * c + k) % 8 == k % 8
    ensures (n * c + k / 8) / 512 == c / (512 / n) && (n * c + k / 8) % 512 == c % (512 / n) * n + k / 8
  {
    if n == 2 {
      assert c == 256 * (c / 256) + c % 256;
    } else {
      assert c == 128 * (c / 128) + c % 128;
    }
  }

  lemma BitOf32(t: Table, v: seq<Sector>, c: nat, k: nat)
    requires t.On(v) && t.Has(c) && t.kind.Fat32? && k < 28
    ensures (32 * c + k) / 8 < 512 * t.size && Bit(Raw32(t, v, c) % 0x1000_0000, k) == FatBit(t, v, 32 * c + k)
  {
    hide Bit, LdDword, LdWord, Pow2;
    Powers();
    JoinedBits(Raw32(t, v, c) % 0x1000_0000, Raw32(t, v, c) / 0x1000_0000, 28, k);
    SectorBits(v[t.base + c / 128], c % 128 * 4, k);
    BytePlace(c, 4, k);
  }

  /** An entry is the bits of the FAT from its place on, the lowest first; of a FAT32 entry the lowest 28 count. */
  lemma EntryIsBits(t: Table, v: seq<Sector>, c: nat, k: nat)
    requires t.On(v) && t.Has(c) && k < (if t.kind.Fat32? then 28 else Spacing(t.kind))
    ensures (Spacing(t.kind) * c + k) / 8 < 512 * t.size
            && Bit(Entry(t, v, c), k) == FatBit(t, v, Spacing(t.kind) * c + k)
  {
    hide Entry12, Entry16, Raw32, FatBit;
    match t.kind
    case Fat12 => BitOf12(t, v, c, k);
    case Fat16 => BitOf16(t, v, c, k);
    case Fat32 => BitOf32(t, v, c, k);
  }
}
