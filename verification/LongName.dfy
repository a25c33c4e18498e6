/** Long names in 13-unit directory entries. */
module LongNames {
  import opened Bytes
  import opened DirEntries

  type Unit = u: nat | u < 0x1_0000

  /** One directory entry. */
  type Entry = e: seq<byte> | |e| == 32 witness seq(32, _ => 0)

  const MAX_LFN: nat := 255
  const AM_LFN: byte := 0x0F
  const LLEF: nat := 0x40
  const FILLER: nat := 0xFFFF
  const LDIR_TYPE: nat := 12
  const LDIR_CHKSUM: nat := 13
  const LDIR_FST_CLUS_LO: nat := 26
  const LFN_OFS: seq<nat> := [1, 3, 5, 7, 9, 14, 16, 18, 20, 22, 24, 28, 30]

  /** A name of UTF-16 units, as the working buffer holds it up to its terminator. No unit is zero or the filler. */
  ghost predicate Name(lfn: seq<Unit>) {
    |lfn| <= MAX_LFN && forall i :: 0 <= i < |lfn| ==> lfn[i] != 0 && lfn[i] != FILLER
  }

  /** Unit k of a terminated name. */
  function UnitAt(lfn: seq<Unit>, k: nat): Unit {
    if k < |lfn| then lfn[k] else 0
  }

  /** Entries a name takes. */
  function Parts(lfn: seq<Unit>): nat {
    (|lfn| + 12) / 13
  }

  /** What slot s of part ord holds: the name, a terminator, fillers. */
  function SlotValue(lfn: seq<Unit>, ord: nat, s: nat): Unit
    requires ord > 0
  {
    var k := 13 * (ord - 1) + s;
    if k <= |lfn| then UnitAt(lfn, k) else FILLER
  }

  function LdSlot(e: Entry, s: nat): (v: Unit)
    requires s < 13
  {
    SlotsApart(s, s);
    LdWord(e, LFN_OFS[s])
  }

  function StSlot(e: Entry, s: nat, v: Unit): (r: Entry)
    requires s < 13
  {
    SlotsApart(s, s);
    StWord(e, LFN_OFS[s], v)
  }

  /** The fields of an entry of a long name, but for its order. */
  ghost predicate Fields(e: Entry, sum: byte) {
    e[DIR_ATTR] == AM_LFN && e[LDIR_TYPE] == 0 && e[LDIR_CHKSUM] == sum && LdWord(e, LDIR_FST_CLUS_LO) == 0
  }

  /** The entry holds part ord of the name, tied to the short name by its checksum. */
  ghost predicate IsPart(e: Entry, lfn: seq<Unit>, ord: nat, sum: byte) {
    && 1 <= ord <= Parts(lfn)
    && e[0] as nat == ord + (if ord == Parts(lfn) then LLEF else 0)
    && Fields(e, sum)
    && forall s :: 0 <= s < 13 ==> LdSlot(e, s) == SlotValue(lfn, ord, s)
  }

  /** Slots do not overlap each other nor the fields of the entry. */
  lemma SlotsApart(s: nat, t: nat)
    requires s < 13 && t < 13
    ensures 1 <= LFN_OFS[s] && LFN_OFS[s] + 1 < 32
    ensures s != t ==> LFN_OFS[s] + 2 <= LFN_OFS[t] || LFN_OFS[t] + 2 <= LFN_OFS[s]
    ensures LFN_OFS[s] + 2 <= DIR_ATTR || (LDIR_CHKSUM + 1 <= LFN_OFS[s] && LFN_OFS[s] + 2 <= LDIR_FST_CLUS_LO)
      || LDIR_FST_CLUS_LO + 2 <= LFN_OFS[s]
  {
  }

  /** Store one unit in a slot: the other slots and the fields stay. */
  lemma SlotStored(e: Entry, s: nat, v: Unit, sum: byte)
    requires s < 13
    ensures LdSlot(StSlot(e, s, v), s) == v
    ensures forall t :: 0 <= t < 13 && t != s ==> LdSlot(StSlot(e, s, v), t) == LdSlot(e, t)
    ensures Fields(e, sum) ==> Fields(StSlot(e, s, v), sum)
  {
    SlotsApart(s, s);
    forall t | 0 <= t < 13 && t != s
      ensures LdSlot(StSlot(e, s, v), t) == LdSlot(e, t)
    {
      hide StWord, LFN_OFS;
      SlotsApart(s, t);
    }
    hide StWord;
  }

  lemma OrderStored(e: Entry, o: byte, sum: byte)
    ensures forall t :: 0 <= t < 13 ==> LdSlot(e[0 := o], t) == LdSlot(e, t)
    ensures Fields(e, sum) ==> Fields(e[0 := o], sum)
  {
    forall t | 0 <= t < 13
      ensures LdSlot(e[0 := o], t) == LdSlot(e, t)
    {
      SlotsApart(t, t);
    }
  }

  lemma PartBounds(lfn: seq<Unit>, ord: nat)
    requires 1 <= ord <= Parts(lfn)
    ensures 13 * (ord - 1) < |lfn| && (ord == Parts(lfn) <==> |lfn| <= 13 * ord)
  {
  }

  /** The first place from k on at which the name holds the filler, or its end. */
  function Stop(lfn: seq<Unit>, k: nat): (j: nat)
    requires k <= |lfn|
    ensures k <= j <= |lfn| && (j < |lfn| ==> lfn[j] == FILLER) && forall i :: k <= i < j ==> lfn[i] != FILLER
    decreases |lfn| - k
  {
    if k < |lfn| && lfn[k] != FILLER then Stop(lfn, k + 1) else k
  }

  /** What slot s of part ord is given: from a filler on, as from the terminator on, nothing but fillers. */
  function SlotWritten(lfn: seq<Unit>, ord: nat, s: nat): Unit
    requires 1 <= ord <= Parts(lfn)
  {
    var k, j := 13 * (ord - 1) + s, Stop(lfn, 13 * (ord - 1));
    if k < j then UnitAt(lfn, k) else if k == j == |lfn| then 0 else FILLER
  }

  /** The entry is what is written for part ord of a name, which may hold the filler. */
  ghost predicate Written(e: Entry, lfn: seq<Unit>, ord: nat, sum: byte)
    requires 1 <= ord <= Parts(lfn)
  {
    && e[0] as nat == ord + (if Stop(lfn, 13 * (ord - 1)) < 13 * ord || |lfn| <= 13 * ord then LLEF else 0)
    && Fields(e, sum)
    && forall s :: 0 <= s < 13 ==> LdSlot(e, s) == SlotWritten(lfn, ord, s)
  }

  /** The part holds no filler, or ends the name, leaving no room for the terminator, and holds nothing else after
      it. */
  ghost predicate Kept(lfn: seq<Unit>, ord: nat)
    requires 1 <= ord <= Parts(lfn)
  {
    var j := Stop(lfn, 13 * (ord - 1));
    j == |lfn| || j >= 13 * ord || (|lfn| == 13 * ord && forall k :: j <= k < |lfn| ==> lfn[k] == FILLER)
  }

  /** The entry written is the part of the name if and only if the part is one that is kept. */
  lemma WrittenIsPart(e: Entry, lfn: seq<Unit>, ord: nat, sum: byte)
    requires |lfn| <= MAX_LFN && 0 !in lfn && 1 <= ord <= Parts(lfn) && Written(e, lfn, ord, sum)
    ensures IsPart(e, lfn, ord, sum) <==> Kept(lfn, ord)
  {
    hide LdSlot, LFN_OFS;
    PartBounds(lfn, ord);
    var i, j := 13 * (ord - 1), Stop(lfn, 13 * (ord - 1));
    if IsPart(e, lfn, ord, sum) && j < |lfn| && j < 13 * ord {
      forall k | j <= k < |lfn|
        ensures lfn[k] == FILLER
      {
        assert LdSlot(e, k - i) == SlotValue(lfn, ord, k - i) == SlotWritten(lfn, ord, k - i);
      }
      if |lfn| < 13 * ord {
        NoTerminator(e, lfn, ord, sum);
        assert false;
      }
    }
  }

  /** After a filler the terminator is not written. */
  lemma NoTerminator(e: Entry, lfn: seq<Unit>, ord: nat, sum: byte)
    requires 1 <= ord <= Parts(lfn) && Written(e, lfn, ord, sum) && Stop(lfn, 13 * (ord - 1)) < |lfn| < 13 * ord
    ensures LdSlot(e, |lfn| - 13 * (ord - 1)) == FILLER && SlotValue(lfn, ord, |lfn| - 13 * (ord - 1)) == 0
  {
    hide LdSlot;
  }

  /** A character behind the filler is not written. */
  lemma FillerCuts(e: Entry, sum: byte)
    requires Written(e, [0x41, FILLER, 0x42], 1, sum)
    ensures !IsPart(e, [0x41, FILLER, 0x42], 1, sum) && LdSlot(e, 2) == FILLER
  {
    hide LdSlot;
    var lfn: seq<Unit> := [0x41, FILLER, 0x42];
    assert Stop(lfn, 0) == 1;
    assert SlotWritten(lfn, 1, 2) == FILLER && SlotValue(lfn, 1, 2) == 0x42;
  }

  /** Every part of a name without the filler is. */
  lemma NameIsKept(lfn: seq<Unit>, ord: nat)
    requires Name(lfn) && 1 <= ord <= Parts(lfn)
    ensures Kept(lfn, ord)
  {
  }

  /** Write part ord of a name into an entry. */
  method PutLfn(lfn: seq<Unit>, dir: Entry, ord: nat, sum: byte) returns (e: Entry)
    requires |lfn| <= MAX_LFN && 0 !in lfn && 1 <= ord <= Parts(lfn)
    ensures Written(e, lfn, ord, sum)
    ensures IsPart(e, lfn, ord, sum) <==> Kept(lfn, ord)
    ensures Name(lfn) ==> IsPart(e, lfn, ord, sum)
  {
    hide StWord, LdWord, LFN_OFS, LdSlot, StSlot, IsPart, Kept;
    PartBounds(lfn, ord);
    e := dir[LDIR_CHKSUM := sum];
    e := e[DIR_ATTR := AM_LFN];
    e := e[LDIR_TYPE := 0];
    e := StWord(e, LDIR_FST_CLUS_LO, 0);
    var i: nat, s: nat, wc: Unit := 13 * (ord - 1), 0, 0;
    ghost var stop := Stop(lfn, i);
    while s < 13
      invariant s <= 13 && Fields(e, sum)
      invariant wc == FILLER <==> 13 * (ord - 1) + s > stop
      invariant i == if wc == FILLER then stop + 1 else 13 * (ord - 1) + s
      invariant forall t :: 0 <= t < s ==> LdSlot(e, t) == SlotWritten(lfn, ord, t)
    {
      if wc != FILLER {
        wc := UnitAt(lfn, i);
        i := i + 1;
      }
      SlotStored(e, s, wc, sum);
      e := StSlot(e, s, wc);
      if wc == 0 {
        wc := FILLER;
      }
      s := s + 1;
    }
    var o: byte := ord + if wc == FILLER || UnitAt(lfn, i) == 0 then LLEF else 0;
    OrderStored(e, o, sum);
    e := e[0 := o];
    WrittenIsPart(e, lfn, ord, sum);
    if Name(lfn) {
      NameIsKept(lfn, ord);
    }
  }

  // ---- Reading back ----------------------------------------------------------------------------

  /** The working buffer: room for the longest name and its terminator. */
  type Buffer = b: seq<Unit> | |b| == 256 witness seq(256, _ => 0)

  /** Units from position k up to the terminator are in the buffer. */
  ghost predicate HoldsFrom(buf: Buffer, lfn: seq<Unit>, k: nat) {
    |lfn| <= MAX_LFN && forall j :: k <= j <= |lfn| ==> buf[j] == UnitAt(lfn, j)
  }

  /** The first part of a sequence in table order: the last one of the name. */
  predicate Starts(e: Entry) {
    e[0] as nat / LLEF % 2 == 1
  }

  /** The order number, without the mark. */
  function Order(e: Entry): nat {
    if Starts(e) then e[0] as nat - LLEF else e[0] as nat
  }

  /** The first slot from s on that holds a terminator. */
  function Terminated(e: Entry, s: nat): (z: nat)
    requires s <= 13
    ensures s <= z <= 13 && (z < 13 ==> LdSlot(e, z) == 0) && forall t :: s <= t < z ==> LdSlot(e, t) != 0
    decreases 13 - s
  {
    if s == 13 || LdSlot(e, s) == 0 then s else Terminated(e, s + 1)
  }

  /** Where the part's first unit goes in the buffer. */
  function PlaceOf(e: Entry): int {
    (Order(e) as int - 1) * 13
  }

  /** The entry can be a part of a name: it names no cluster, its units fit in the buffer with the terminator, and
      behind a terminator it holds fillers. */
  ghost predicate Takes(e: Entry) {
    var z, k := Terminated(e, 0), PlaceOf(e);
    && LdWord(e, LDIR_FST_CLUS_LO) == 0 && Order(e) >= 1
    && (forall t :: z < t < 13 ==> LdSlot(e, t) == FILLER)
    && if z < 13 then k + z < 256 else if Starts(e) then k + 13 < 256 else k + 13 <= 256
  }

  /** The buffer holds the part: its units up to the terminator, and one behind the last part. */
  ghost predicate InBuffer(buf: Buffer, e: Entry)
    requires Takes(e)
  {
    && (forall t :: 0 <= t < 13 && t <= Terminated(e, 0) ==> buf[PlaceOf(e) + t] == LdSlot(e, t))
    && (Terminated(e, 0) == 13 && Starts(e) ==> buf[PlaceOf(e) + 13] == 0)
  }

  /** Nothing else in the buffer changed. */
  ghost predicate KeptElsewhere(was: Buffer, buf: Buffer, e: Entry) {
    var k := PlaceOf(e);
    forall j :: 0 <= j < 256 && !(k <= j < k + 13 || (Starts(e) && j == k + 13)) ==> buf[j] == was[j]
  }

  /** Pick the units of an entry into the buffer: refused exactly if it cannot be a part of a name. */
  method PickLfn(buf0: Buffer, dir: Entry) returns (ok: bool, buf: Buffer)
    ensures ok <==> Takes(dir)
    ensures ok ==> InBuffer(buf, dir)
    ensures ok ==> KeptElsewhere(buf0, buf, dir)
  {
    hide LdSlot, LdWord, LFN_OFS, Terminated;
    buf := buf0;
    if LdWord(dir, LDIR_FST_CLUS_LO) != 0 {
      return false, buf;
    }
    var o := dir[0] as nat;
    var last := o / LLEF % 2 == 1;
    var i: int := ((if last then o - LLEF else o) - 1) * 13;
    ghost var k, z := i, Terminated(dir, 0);
    var s: nat, wc: Unit := 0, 1;
    while s < 13
      invariant s <= 13 && k == PlaceOf(dir) && (wc != 0 <==> s <= z) && (s > 0 ==> k >= 0)
      invariant i == k + (if s <= z then s else z + 1) && (s > 0 ==> i <= 256)
      invariant forall t :: 0 <= t < s && t <= z ==> buf[k + t] == LdSlot(dir, t)
      invariant forall t :: z < t < s ==> LdSlot(dir, t) == FILLER
      invariant forall j :: 0 <= j < 256 && !(k <= j < k + s) ==> buf[j] == buf0[j]
    {
      var uc := LdSlot(dir, s);
      if wc != 0 {
        if i < 0 || i >= 256 {
          return false, buf;
        }
        wc := uc;
        buf := buf[i := uc];
        i := i + 1;
      } else if uc != FILLER {
        return false, buf;
      }
      s := s + 1;
    }
    if last && wc != 0 {
      if i >= 256 {
        return false, buf;
      }
      buf := buf[i := 0];
    }
    ok := true;
  }

  /** A part of a name can be one. */
  lemma PartTaken(e: Entry, lfn: seq<Unit>, ord: nat, sum: byte)
    requires Name(lfn) && IsPart(e, lfn, ord, sum)
    ensures Takes(e) && Order(e) == ord && (Starts(e) <==> ord == Parts(lfn))
    ensures Terminated(e, 0) == if |lfn| < 13 * ord then |lfn| - 13 * (ord - 1) else 13
  {
    hide LdSlot;
    PartBounds(lfn, ord);
    var k := 13 * (ord - 1);
    forall s | 0 <= s < 13
      ensures LdSlot(e, s) == 0 <==> k + s == |lfn|
    {
    }
  }

  /** And where it is in the buffer, so is what it holds of the name. */
  lemma PartHeld(buf: Buffer, e: Entry, lfn: seq<Unit>, ord: nat, sum: byte)
    requires Name(lfn) && IsPart(e, lfn, ord, sum) && Takes(e) && InBuffer(buf, e)
    requires ord == Parts(lfn) || HoldsFrom(buf, lfn, 13 * ord)
    ensures HoldsFrom(buf, lfn, 13 * (ord - 1))
  {
    hide LdSlot, Takes;
    PartTaken(e, lfn, ord, sum);
    PartBounds(lfn, ord);
    var k := 13 * (ord - 1);
    forall j | k <= j <= |lfn|
      ensures buf[j] == UnitAt(lfn, j)
    {
      if j < k + 13 {
        assert LdSlot(e, j - k) == SlotValue(lfn, ord, j - k);
        assert buf[PlaceOf(e) + (j - k)] == LdSlot(e, j - k);
      }
    }
  }
}
