/** Finding, registering and removing names in a directory, over its row of entries. */
module Directories {
  import opened Bytes
  import opened DirEntries
  import opened LongNames
  import opened ShortNames

  const AM_VOL: nat := 0x08
  const NO_BLOCK: int := -1

  /** A name to look for: the long name in the buffer, the short name, and what of them may be compared. */
  datatype Query = Query(buf: Buffer, fn: Field, up: Unit -> Unit, noLong: bool, loss: bool)

  /** The six attribute bits of an entry. */
  function Attr(e: Entry): nat {
    e[DIR_ATTR] as nat % 0x40
  }

  predicate Free(e: Entry) {
    e[0] == 0 || e[0] == DDEM
  }

  /** In use, and a part of a long name. */
  predicate IsLong(e: Entry) {
    !Free(e) && Attr(e) == AM_LFN as nat
  }

  predicate IsVolume(e: Entry) {
    Attr(e) / AM_VOL % 2 == 1 && Attr(e) != AM_LFN as nat
  }

  /** Checksum that ties the parts of a long name to its short name. */
  function SumOf(bs: seq<byte>): byte {
    if bs == [] then 0 else
      var s := SumOf(bs[..|bs| - 1]) as nat;
      (s / 2 + s * 128 + bs[|bs| - 1] as nat) % 256
  }

  method SumSfn(fn: seq<byte>) returns (sum: byte)
    ensures sum == SumOf(fn)
  {
    sum := 0;
    var i: nat := 0;
    while i < |fn|
      invariant i <= |fn| && sum == SumOf(fn[..i])
    {
      sum := (sum as nat / 2 + sum as nat * 128 + fn[i] as nat) % 256;
      assert fn[..i + 1][..i] == fn[..i];
      i := i + 1;
    }
    assert fn[..i] == fn;
  }

  /** r is b rotated to the right by one bit. */
  ghost predicate RotatedRight(b: byte, r: byte) {
    forall k: nat :: k < 8 ==> Bit(r, k) == Bit(b, (k + 1) % 8)
  }

  /** One byte more: the sum so far is rotated to the right, and the byte added in eight bits. */
  lemma SumRotates(bs: seq<byte>, b: byte) returns (r: byte)
    ensures RotatedRight(SumOf(bs), r) && SumOf(bs + [b]) as nat == (r as nat + b as nat) % 0x100
  {
    r := Turned(SumOf(bs), b);
    var all := SumNext(bs, b, SumOf(bs));
  }

  lemma Turned(s: byte, b: byte) returns (r: byte)
    ensures RotatedRight(s, r) && (s as nat / 2 + s as nat * 128 + b as nat) % 0x100 == (r as nat + b as nat) % 0x100
  {
    var h := s as nat / 2;
    var l := s as nat % 2;
    r := h + l * 128;
    assert h + (2 * h + l) * 128 + b as nat == 0x100 * h + (r as nat + b as nat);
    TurnedBits(s as nat, r as nat);
  }

  lemma TurnedBits(s: nat, r: nat)
    requires s < 0x100 && r == s / 2 + s % 2 * 128
    ensures forall k: nat :: k < 8 ==> Bit(r, k) == Bit(s, (k + 1) % 8)
  {
    assert Pow2(7) == 128 by {
      assert Pow2(3) == 8 && Pow2(5) == 32;
    }
    forall k: nat | k < 8
      ensures Bit(r, k) == Bit(s, (k + 1) % 8)
    {
      JoinedBits(s / 2, s % 2, 7, k);
    }
  }

  lemma SumNext(t: seq<byte>, b: byte, s: byte) returns (r: seq<byte>)
    requires SumOf(t) == s
    ensures r == t + [b] && SumOf(r) as nat == (s as nat / 2 + s as nat * 128 + b as nat) % 0x100
  {
    r := t + [b];
    assert r[..|t|] == t;
  }

  /** The checksum of "THEQUI~1FOX". */
  lemma KnownSum()
    ensures SumOf([0x54, 0x48, 0x45, 0x51, 0x55, 0x49, 0x7E, 0x31, 0x46, 0x4F, 0x58]) == 0x07
  {
    var t: seq<byte> := [];
    assert SumOf(t) == 0;
    hide SumOf;
    t := SumNext(t, 0x54, 0x00);
    t := SumNext(t, 0x48, 0x54);
    t := SumNext(t, 0x45, 0x72);
    t := SumNext(t, 0x51, 0x7E);
    t := SumNext(t, 0x55, 0x90);
    t := SumNext(t, 0x49, 0x9D);
    t := SumNext(t, 0x7E, 0x17);
    t := SumNext(t, 0x31, 0x09);
    t := SumNext(t, 0x46, 0xB5);
    t := SumNext(t, 0x4F, 0x20);
    t := SumNext(t, 0x58, 0x5F);
    assert t == [0x54, 0x48, 0x45, 0x51, 0x55, 0x49, 0x7E, 0x31, 0x46, 0x4F, 0x58];
  }

  // ---- Comparing a part of a long name ---------------------------------------------------------

  /** Slot s and all before it are in the name, none before it a terminator. */
  ghost predicate SlotsMatch(q: Query, e: Entry, i0: int, s: nat)
    requires s <= 13
  {
    forall t :: 0 <= t < s ==>
      && 0 <= i0 + t < 256 && q.up(LdSlot(e, t)) == q.up(q.buf[i0 + t])
      && (t + 1 < s ==> LdSlot(e, t) != 0)
  }

  /** Where the part's first unit goes in the buffer. */
  function PartStart(e: Entry): int {
    (e[0] as int % 0x40 - 1) * 13
  }

  /** The part ends the name: from a terminator on it holds fillers. */
  ghost predicate EndsIn(e: Entry, s: nat)
    requires 0 < s <= 13
  {
    LdSlot(e, s - 1) == 0 && forall t :: s <= t < 13 ==> LdSlot(e, t) == FILLER
  }

  /** The entry is the part of the name it says it is. */
  ghost predicate PartMatches(q: Query, e: Entry) {
    && LdWord(e, LDIR_FST_CLUS_LO) == 0
    && ((exists s :: 0 < s <= 13 && SlotsMatch(q, e, PartStart(e), s) && EndsIn(e, s))
        || (SlotsMatch(q, e, PartStart(e), 13) && LdSlot(e, 12) != 0
            && !(Starts(e) && PartStart(e) + 13 < 256 && q.buf[PartStart(e) + 13] != 0)))
  }

  /** Compare one part of a long name. */
  method CmpLfn(q: Query, e: Entry) returns (same: bool)
    ensures same == PartMatches(q, e)
  {
    hide LdSlot;
    if LdWord(e, LDIR_FST_CLUS_LO) != 0 {
      return false;
    }
    var i := PartStart(e);
    var wc: Unit, s: nat := 1, 0;
    ghost var n: nat := 0;
    while s < 13
      invariant s <= 13 && n <= s && SlotsMatch(q, e, PartStart(e), n)
      invariant wc != 0 ==> n == s && i == PartStart(e) + s && (s > 0 ==> LdSlot(e, s - 1) == wc)
      invariant wc == 0 ==> 0 < n && LdSlot(e, n - 1) == 0 && forall t :: n <= t < s ==> LdSlot(e, t) == FILLER
    {
      var uc := LdSlot(e, s);
      if wc != 0 {
        if i < 0 || i >= 256 || q.up(uc) != q.up(q.buf[i]) {
          return false;
        }
        wc := uc;
        i := i + 1;
        n := s + 1;
      } else if uc != FILLER {
        return false;
      }
      s := s + 1;
    }
    if Starts(e) && wc != 0 && i < 256 && q.buf[i] != 0 {
      return false;
    }
    same := true;
  }

  // ---- The scan --------------------------------------------------------------------------------

  /** What a scan remembers: the order number expected next, the checksum and the start of the sequence. */
  datatype Scan = Scan(ord: nat, sum: byte, blk: int)

  const NO_ORDER: nat := 0xFF

  function Reset(s: Scan): Scan {
    s.(ord := NO_ORDER, blk := NO_BLOCK)
  }

  datatype Verdict = Ended | Matched(blk: int) | GoOn(s: Scan)

  ghost function Look(q: Query, s: Scan, e: Entry, i: nat): Verdict {
    if e[0] == 0 then Ended
    else if e[0] == DDEM || IsVolume(e) then GoOn(Reset(s))
    else if Attr(e) == AM_LFN as nat then
      if q.noLong then GoOn(s)
      else
        var t := if Starts(e) then Scan(Order(e), e[LDIR_CHKSUM], i) else s;
        var next := Order(e) == t.ord && t.sum == e[LDIR_CHKSUM] && PartMatches(q, e);
        GoOn(t.(ord := if next then (t.ord + 0xFF) % 0x100 else NO_ORDER))
    else if (s.ord == 0 && s.sum == SumOf(e[..11])) || (!q.loss && e[..11] == q.fn) then Matched(s.blk)
    else GoOn(Reset(s))
  }

  datatype Finding = NotThere | Found(at: nat, blk: int)

  /** What a scan from entry i on finds. */
  ghost function Search(q: Query, es: seq<Entry>, i: nat, s: Scan): Finding
    decreases |es| - i
  {
    if i >= |es| then NotThere
    else match Look(q, s, es[i], i)
      case Ended => NotThere
      case Matched(blk) => Found(i, blk)
      case GoOn(t) => Search(q, es, i + 1, t)
  }

  const SCAN_START: Scan := Scan(NO_ORDER, 0xFF, NO_BLOCK)

  ghost function Find(q: Query, es: seq<Entry>): Finding {
    Search(q, es, 0, SCAN_START)
  }

  /** Look at one entry. */
  method LookAt(q: Query, s: Scan, e: Entry, i: nat) returns (v: Verdict)
    ensures v == Look(q, s, e, i)
  {
    hide PartMatches, SumOf;
    if e[0] == 0 {
      return Ended;
    }
    if e[0] == DDEM || IsVolume(e) {
      return GoOn(Reset(s));
    }
    if Attr(e) == AM_LFN as nat {
      if q.noLong {
        return GoOn(s);
      }
      var t := s;
      if Starts(e) {
        t := Scan(Order(e), e[LDIR_CHKSUM], i);
      }
      var same := false;
      if Order(e) == t.ord && t.sum == e[LDIR_CHKSUM] {
        same := CmpLfn(q, e);
      }
      return GoOn(t.(ord := if same then (t.ord + 0xFF) % 0x100 else NO_ORDER));
    }
    var sum := SumSfn(e[..11]);
    if (s.ord == 0 && s.sum == sum) || (!q.loss && e[..11] == q.fn) {
      return Matched(s.blk);
    }
    v := GoOn(Reset(s));
  }

  // ---- Well-formed directories -----------------------------------------------------------------

  /** What may follow entry e: after a part of a long name, the next part or the short name. */
  ghost predicate Follows(e: Entry, f: Entry) {
    && (e[0] == 0 ==> f[0] == 0)
    && (IsLong(e) ==>
          && !Free(f) && !IsVolume(f)
          && if Order(e) == 1 then !IsLong(f) && SumOf(f[..11]) == e[LDIR_CHKSUM]
             else IsLong(f) && !Starts(f) && Order(f) == Order(e) - 1 && f[LDIR_CHKSUM] == e[LDIR_CHKSUM])
    && (!IsLong(e) && IsLong(f) ==> Starts(f))
  }

  /** Zero entries only at the end, and every long name complete and followed by its short name. */
  ghost predicate WellFormed(es: seq<Entry>) {
    && (forall i :: 0 <= i < |es| - 1 ==> Follows(es[i], es[i + 1]))
    && (es != [] ==> !IsLong(es[|es| - 1]) && (IsLong(es[0]) ==> Starts(es[0])))
    && forall i :: 0 <= i < |es| && IsLong(es[i]) ==> 1 <= Order(es[i]) <= 20
  }

  /** Entries [p, p + n) hold a name: n - 1 parts of the long name and the short name. */
  ghost predicate Block(es: seq<Entry>, p: nat, n: nat, lfn: seq<Unit>, fn: Field) {
    && 0 < n && p + n <= |es|
    && (forall i :: p <= i < p + n - 1 ==> IsPart(es[i], lfn, p + n - 1 - i, SumOf(fn)))
    && (n == 1 || (Name(lfn) && n == Parts(lfn) + 1))
    && IsShortEntry(es[p + n - 1], fn)
  }

  /** The short-name entry of a file or directory. */
  ghost predicate IsShortEntry(e: Entry, fn: Field) {
    e[..11] == fn && fn[0] != 0 && fn[0] != DDEM && Attr(e) / AM_VOL % 2 == 0
  }

  /** "The quick brown.fox" with the short name "THEQUI~1FOX" is two entries and the short one: all bytes of the two. */
  lemma KnownName(es: seq<Entry>, p: nat)
    requires p + 3 <= |es| && Block(es, p, 3, QUICK_NAME, QUICK_SHORT)
    ensures es[p] == QUICK_LAST && es[p + 1] == QUICK_FIRST && es[p + 2][..11] == QUICK_SHORT
  {
    KnownSum();
    hide SumOf;
    KnownPart(es[p], 2, QUICK_LAST);
    KnownPart(es[p + 1], 1, QUICK_FIRST);
  }

  const QUICK_NAME: seq<Unit> := [
    0x54, 0x68, 0x65, 0x20, 0x71, 0x75, 0x69, 0x63, 0x6B, 0x20, 0x62, 0x72, 0x6F, 0x77, 0x6E, 0x2E, 0x66, 0x6F, 0x78
  ]
  const QUICK_SHORT: Field := [0x54, 0x48, 0x45, 0x51, 0x55, 0x49, 0x7E, 0x31, 0x46, 0x4F, 0x58]
  const QUICK_LAST: Entry := [
    0x42, 0x77, 0x00, 0x6E, 0x00, 0x2E, 0x00, 0x66, 0x00, 0x6F, 0x00, 0x0F, 0x00, 0x07, 0x78, 0x00, 0x00, 0x00,
    0xFF, 0xFF, 0xFF, 0xFF, 0xFF, 0xFF, 0xFF, 0xFF, 0x00, 0x00, 0xFF, 0xFF, 0xFF, 0xFF
  ]
  const QUICK_FIRST: Entry := [
    0x01, 0x54, 0x00, 0x68, 0x00, 0x65, 0x00, 0x20, 0x00, 0x71, 0x00, 0x0F, 0x00, 0x07, 0x75, 0x00, 0x69, 0x00,
    0x63, 0x00, 0x6B, 0x00, 0x20, 0x00, 0x62, 0x00, 0x00, 0x00, 0x72, 0x00, 0x6F, 0x00
  ]

  lemma SameWord(a: Entry, b: Entry, o: nat)
    requires o < 31 && LdWord(a, o) == LdWord(b, o)
    ensures a[o] == b[o] && a[o + 1] == b[o + 1]
  {
  }

  /** An entry of a long name is its order, its fields and its slots. */
  lemma SameParts(a: Entry, b: Entry, sum: byte)
    requires a[0] == b[0] && Fields(a, sum) && Fields(b, sum)
    requires forall s :: 0 <= s < 13 ==> LdSlot(a, s) == LdSlot(b, s)
    ensures a == b
  {
    hide LdWord;
    SameWord(a, b, 26);
    forall s | 0 <= s < 13
      ensures a[LFN_OFS[s]] == b[LFN_OFS[s]] && a[LFN_OFS[s] + 1] == b[LFN_OFS[s] + 1]
    {
      assert LdSlot(a, s) == LdSlot(b, s);
      SlotsApart(s, s);
      SameWord(a, b, LFN_OFS[s]);
    }
    forall i | 0 <= i < 32
      ensures a[i] == b[i]
    {
      if i != 0 && i != 11 && i != 12 && i != 13 && i != 26 && i != 27 {
        var t := if i <= 10 then (i - 1) / 2 else if i <= 25 then 5 + (i - 14) / 2 else 11 + (i - 28) / 2;
        assert LFN_OFS[t] == i || LFN_OFS[t] + 1 == i;
      }
    }
  }

  lemma LastSlot(s: nat)
    requires s < 13
    ensures LdSlot(QUICK_LAST, s) == SlotValue(QUICK_NAME, 2, s)
  {
  }

  lemma FirstSlot(s: nat)
    requires s < 13
    ensures LdSlot(QUICK_FIRST, s) == SlotValue(QUICK_NAME, 1, s)
  {
  }

  lemma KnownPart(e: Entry, ord: nat, bs: Entry)
    requires IsPart(e, QUICK_NAME, ord, 0x07) && ((ord == 2 && bs == QUICK_LAST) || (ord == 1 && bs == QUICK_FIRST))
    ensures e == bs
  {
    hide LdSlot, SlotValue;
    forall s | 0 <= s < 13
      ensures LdSlot(bs, s) == SlotValue(QUICK_NAME, ord, s)
    {
      if ord == 2 {
        LastSlot(s);
      } else {
        FirstSlot(s);
      }
    }
    SameParts(e, bs, 0x07);
  }

  // ---- Scanning up to a place ------------------------------------------------------------------

  datatype Progress = Stopped(f: Finding) | At(s: Scan)

  /** A scan from entry i, stopped at entry p. */
  ghost function Advance(q: Query, es: seq<Entry>, i: nat, s: Scan, p: nat): Progress
    requires i <= p <= |es|
    decreases p - i
  {
    if i == p then At(s)
    else match Look(q, s, es[i], i)
      case Ended => Stopped(NotThere)
      case Matched(blk) => Stopped(Found(i, blk))
      case GoOn(t) => Advance(q, es, i + 1, t, p)
  }

  lemma {:induction false} SearchAdvances(q: Query, es: seq<Entry>, i: nat, s: Scan, p: nat)
    requires i <= p <= |es|
    ensures Search(q, es, i, s) == match Advance(q, es, i, s, p) case Stopped(f) => f case At(t) => Search(q, es, p, t)
    decreases p - i
  {
    hide Look;
    if i < p {
      match Look(q, s, es[i], i)
      case Ended =>
      case Matched(_) =>
      case GoOn(t) => SearchAdvances(q, es, i + 1, t, p);
    }
  }

  /** A block found starts at or before its short name. */
  lemma {:induction false} BlockBefore(q: Query, es: seq<Entry>, i: nat, s: Scan)
    requires s.blk == NO_BLOCK || 0 <= s.blk <= i
    ensures var f := Search(q, es, i, s); f.Found? ==> f.at < |es| && (f.blk == NO_BLOCK || 0 <= f.blk <= f.at)
    decreases |es| - i
  {
    if i < |es| {
      match Look(q, s, es[i], i)
      case Ended =>
      case Matched(_) =>
      case GoOn(t) => BlockBefore(q, es, i + 1, t);
    }
  }

  /** Only the entries before the place matter. */
  lemma {:induction false} AdvanceFrame(q: Query, es: seq<Entry>, fs: seq<Entry>, i: nat, s: Scan, p: nat)
    requires i <= p <= |es| && p <= |fs| && es[..p] == fs[..p]
    ensures Advance(q, es, i, s, p) == Advance(q, fs, i, s, p)
    decreases p - i
  {
    hide Look;
    if i < p {
      assert es[..p][i] == fs[..p][i];
      match Look(q, s, es[i], i)
      case Ended =>
      case Matched(_) =>
      case GoOn(t) => AdvanceFrame(q, es, fs, i + 1, t, p);
    }
  }

  lemma {:induction false} AdvanceOn(q: Query, es: seq<Entry>, i: nat, s: Scan, p: nat)
    requires i <= p < |es| && Advance(q, es, i, s, p).At?
    ensures Advance(q, es, i, s, p + 1) ==
            match Look(q, Advance(q, es, i, s, p).s, es[p], p)
            case Ended => Stopped(NotThere)
            case Matched(blk) => Stopped(Found(p, blk))
            case GoOn(t) => At(t)
    decreases p - i
  {
    hide Look;
    if i < p {
      match Look(q, s, es[i], i)
      case Ended =>
      case Matched(_) =>
      case GoOn(t) => AdvanceOn(q, es, i + 1, t, p);
    }
  }

  lemma {:induction false} AdvanceBack(q: Query, es: seq<Entry>, i: nat, s: Scan, p: nat)
    requires i < p <= |es| && Advance(q, es, i, s, p).At?
    ensures Advance(q, es, i, s, p - 1).At?
    decreases p - i
  {
    hide Look;
    if i < p - 1 {
      match Look(q, s, es[i], i)
      case GoOn(t) => AdvanceBack(q, es, i + 1, t, p);
    }
  }

  /** A scan that finds nothing gets to every place that no zero entry comes before. */
  lemma {:induction false} GetsThere(q: Query, es: seq<Entry>, i: nat, s: Scan, p: nat)
    requires i <= p <= |es| && Search(q, es, i, s).NotThere? && forall j :: i <= j < p ==> es[j][0] != 0
    ensures Advance(q, es, i, s, p).At?
    decreases p - i
  {
    if i < p {
      match Look(q, s, es[i], i) {
        case Ended =>
        case Matched(_) =>
        case GoOn(t) => GetsThere(q, es, i + 1, t, p);
      }
    }
  }

  /** Before an entry that is not part of a sequence going on, a scan in a well-formed directory expects none. */
  lemma AtRest(q: Query, es: seq<Entry>, p: nat)
    requires p <= |es| && Advance(q, es, 0, SCAN_START, p).At? && (p > 0 ==> !IsLong(es[p - 1]))
    ensures Advance(q, es, 0, SCAN_START, p).s.ord == NO_ORDER && Advance(q, es, 0, SCAN_START, p).s.blk == NO_BLOCK
  {
    if p > 0 {
      AdvanceBack(q, es, 0, SCAN_START, p);
      AdvanceOn(q, es, 0, SCAN_START, p - 1);
    }
  }

  // ---- A registered name is found --------------------------------------------------------------

  /** A stored part matches the name it is of. */
  lemma PartIsFound(q: Query, lfn: seq<Unit>, e: Entry, ord: nat, sum: byte)
    requires Name(lfn) && HoldsFrom(q.buf, lfn, 0) && IsPart(e, lfn, ord, sum)
    ensures PartMatches(q, e) && Order(e) == ord && (Starts(e) <==> ord == Parts(lfn)) && IsLong(e) && 1 <= ord <= 20
  {
    hide LdSlot;
    PartBounds(lfn, ord);
    assert 1 <= ord <= 20;
    var i0 := 13 * (ord - 1);
    assert PartStart(e) == i0;
    if |lfn| < 13 * ord {
      var s := |lfn| - i0 + 1;
      assert forall t :: 0 <= t < s ==> LdSlot(e, t) == UnitAt(lfn, i0 + t) == q.buf[i0 + t];
      assert SlotsMatch(q, e, i0, s) && EndsIn(e, s);
    } else {
      assert forall t :: 0 <= t < 13 ==> LdSlot(e, t) == UnitAt(lfn, i0 + t) == q.buf[i0 + t];
      assert SlotsMatch(q, e, i0, 13);
    }
  }

  /** The query is for this name. */
  ghost predicate Asks(q: Query, lfn: seq<Unit>, fn: Field, n: nat) {
    !q.noLong && if n == 1 then q.fn == fn && !q.loss else Name(lfn) && HoldsFrom(q.buf, lfn, 0)
  }

  /** Scanning the first k entries of a name's block. */
  lemma {:induction false} BlockScanned(q: Query, es: seq<Entry>, p: nat, n: nat, lfn: seq<Unit>, fn: Field, s: Scan,
                                        k: nat)
    requires Block(es, p, n, lfn, fn) && Asks(q, lfn, fn, n) && s.ord == NO_ORDER && s.blk == NO_BLOCK && 0 < k < n
    ensures Advance(q, es, p, s, p + k) == At(Scan(n - 1 - k, SumOf(fn), p))
    decreases k
  {
    hide PartMatches, IsPart, SumOf;
    var e := es[p + k - 1];
    PartIsFound(q, lfn, e, n - k, SumOf(fn));
    PartFields(lfn, e, n - k, SumOf(fn));
    if k > 1 {
      BlockScanned(q, es, p, n, lfn, fn, s, k - 1);
    }
    AdvanceOn(q, es, p, s, p + k - 1);
  }

  lemma PartFields(lfn: seq<Unit>, e: Entry, ord: nat, sum: byte)
    requires IsPart(e, lfn, ord, sum)
    ensures e[LDIR_CHKSUM] == sum && e[DIR_ATTR] == AM_LFN
  {
  }

  /** From rest, the scan of a name's block matches at its short name. */
  lemma BlockIsFound(q: Query, es: seq<Entry>, p: nat, n: nat, lfn: seq<Unit>, fn: Field, s: Scan)
    requires Block(es, p, n, lfn, fn) && Asks(q, lfn, fn, n) && s.ord == NO_ORDER && s.blk == NO_BLOCK
    ensures Search(q, es, p, s) == Found(p + n - 1, if n == 1 then NO_BLOCK else p)
  {
    hide PartMatches, IsPart, SumOf;
    if n > 1 {
      BlockScanned(q, es, p, n, lfn, fn, s, n - 1);
    }
    SearchAdvances(q, es, p, s, p + n - 1);
  }

  /** fs is es with a block put in entries that were free; before them no entry is zero or a part of a long name. */
  ghost predicate Registered(es: seq<Entry>, fs: seq<Entry>, p: nat, n: nat, lfn: seq<Unit>, fn: Field) {
    && |fs| == |es| && Block(fs, p, n, lfn, fn)
    && (forall j :: p <= j < p + n ==> Free(es[j]))
    && (forall j :: 0 <= j < |es| && !(p <= j < p + n) ==> fs[j] == es[j])
    && (p > 0 ==> !Free(es[p - 1]))
  }

  lemma {:induction false} NoZeroBefore(es: seq<Entry>, p: nat, j: nat)
    requires WellFormed(es) && j < p < |es| && !Free(es[p - 1])
    ensures es[j][0] != 0
    decreases p - j
  {
    if j < p - 1 {
      NoZeroBefore(es, p, j + 1);
      assert Follows(es[j], es[j + 1]);
    }
  }

  /** A name that was not there is found once it is registered, at its own entry. */
  lemma RegisteredIsFound(q: Query, es: seq<Entry>, fs: seq<Entry>, p: nat, n: nat, lfn: seq<Unit>, fn: Field)
    requires WellFormed(es) && Registered(es, fs, p, n, lfn, fn) && Asks(q, lfn, fn, n) && Find(q, es).NotThere?
    ensures Find(q, fs) == Found(p + n - 1, if n == 1 then NO_BLOCK else p)
  {
    hide Block, Asks, Look;
    BlockRoom(fs, p, n, lfn, fn);
    forall j | 0 <= j < p
      ensures es[j][0] != 0
    {
      NoZeroBefore(es, p, j);
    }
    GetsThere(q, es, 0, SCAN_START, p);
    assert es[..p] == fs[..p];
    AdvanceFrame(q, es, fs, 0, SCAN_START, p);
    if p > 0 {
      assert Follows(es[p - 1], es[p]);
    }
    AtRest(q, fs, p);
    SearchAdvances(q, fs, 0, SCAN_START, p);
    BlockIsFound(q, fs, p, n, lfn, fn, Advance(q, fs, 0, SCAN_START, p).s);
  }

  lemma BlockRoom(es: seq<Entry>, p: nat, n: nat, lfn: seq<Unit>, fn: Field)
    requires Block(es, p, n, lfn, fn)
    ensures 0 < n && p + n <= |es|
  {
  }

  // ---- Registering and removing keep the directory well formed ---------------------------------

  lemma BlockFollows(es: seq<Entry>, p: nat, n: nat, lfn: seq<Unit>, fn: Field, i: nat)
    requires Block(es, p, n, lfn, fn) && p <= i < p + n
    ensures es[i][0] != 0 && es[i][0] != DDEM
    ensures i + 1 < p + n ==> Follows(es[i], es[i + 1])
    ensures if i == p + n - 1 then !IsLong(es[i]) else IsLong(es[i]) && 1 <= Order(es[i]) <= 20
    ensures i == p && n > 1 ==> Starts(es[i])
  {
    hide LdSlot;
    if i < p + n - 1 {
      PartOrder(lfn, es[i], p + n - 1 - i, SumOf(fn));
      if i + 1 < p + n - 1 {
        PartOrder(lfn, es[i + 1], p + n - 2 - i, SumOf(fn));
      }
    }
  }

  lemma PartOrder(lfn: seq<Unit>, e: Entry, ord: nat, sum: byte)
    requires Name(lfn) && IsPart(e, lfn, ord, sum)
    ensures 1 <= ord <= 20 && ord <= Parts(lfn) && e[LDIR_CHKSUM] == sum
    ensures IsLong(e) && Order(e) == ord && (Starts(e) <==> ord == Parts(lfn)) && !IsVolume(e)
  {
  }

  /** Registering keeps a directory well formed. */
  lemma RegisteredIsWellFormed(es: seq<Entry>, fs: seq<Entry>, p: nat, n: nat, lfn: seq<Unit>, fn: Field)
    requires WellFormed(es) && Registered(es, fs, p, n, lfn, fn)
    ensures WellFormed(fs)
  {
    hide Block, IsLong, Order, Starts, Follows;
    BlockRoom(fs, p, n, lfn, fn);
    forall i | 0 <= i < |fs|
      ensures IsLong(fs[i]) ==> 1 <= Order(fs[i]) <= 20
    {
      if p <= i < p + n {
        BlockFollows(fs, p, n, lfn, fn, i);
      }
    }
    forall i | 0 <= i < |fs| - 1
      ensures Follows(fs[i], fs[i + 1])
    {
      RegisteredFollows(es, fs, p, n, lfn, fn, i);
    }
    BlockFollows(fs, p, n, lfn, fn, p + n - 1);
    BlockFollows(fs, p, n, lfn, fn, p);
  }

  lemma RegisteredFollows(es: seq<Entry>, fs: seq<Entry>, p: nat, n: nat, lfn: seq<Unit>, fn: Field, i: nat)
    requires WellFormed(es) && Registered(es, fs, p, n, lfn, fn) && i < |fs| - 1
    ensures Follows(fs[i], fs[i + 1])
  {
    hide Block;
    BlockRoom(fs, p, n, lfn, fn);
    assert Follows(es[i], es[i + 1]);
    if i + 1 == p || p <= i < p + n {
      BlockFollows(fs, p, n, lfn, fn, if i + 1 == p then p else i);
    }
  }

  /** gs is fs with the entries [p, p + n) marked deleted. */
  ghost predicate Removed(fs: seq<Entry>, gs: seq<Entry>, p: nat, n: nat) {
    && |gs| == |fs| && 0 < n && p + n <= |fs|
    && forall j :: 0 <= j < |fs| ==> gs[j] == if p <= j < p + n then fs[j][0 := DDEM] else fs[j]
  }

  /** Registering a name and removing it again: every other entry is as it was, the others are free as before. */
  lemma LiveRestored(es: seq<Entry>, fs: seq<Entry>, gs: seq<Entry>, p: nat, n: nat, lfn: seq<Unit>, fn: Field)
    requires Registered(es, fs, p, n, lfn, fn) && Removed(fs, gs, p, n)
    ensures forall j :: 0 <= j < |es| ==> (Free(gs[j]) <==> Free(es[j])) && (!Free(es[j]) ==> gs[j] == es[j])
  {
  }

  /** Removing it again keeps the directory well formed too. */
  lemma RemovedIsWellFormed(es: seq<Entry>, fs: seq<Entry>, gs: seq<Entry>, p: nat, n: nat, lfn: seq<Unit>, fn: Field)
    requires WellFormed(es) && Registered(es, fs, p, n, lfn, fn) && Removed(fs, gs, p, n)
    ensures WellFormed(gs)
  {
    hide Block;
    forall i | 0 <= i < |gs| - 1
      ensures Follows(gs[i], gs[i + 1])
    {
      assert Follows(es[i], es[i + 1]);
    }
  }

  /** Scanning entries that are all free. */
  lemma {:induction false} FreeScanned(q: Query, es: seq<Entry>, i: nat, s: Scan, p: nat)
    requires i <= p <= |es| && forall j :: i <= j < p ==> es[j][0] == DDEM
    ensures Advance(q, es, i, s, p) == At(if i == p then s else Reset(s))
    decreases p - i
  {
    if i < p {
      FreeScanned(q, es, i + 1, Reset(s), p);
    }
  }

  /** Names are found after registering and removing one just as they were before. */
  lemma FindRestored(q: Query, es: seq<Entry>, fs: seq<Entry>, gs: seq<Entry>, p: nat, n: nat, lfn: seq<Unit>,
                     fn: Field)
    requires WellFormed(es) && Registered(es, fs, p, n, lfn, fn) && Removed(fs, gs, p, n)
    ensures Find(q, gs) == Find(q, es)
  {
    hide Block, WellFormed;
    assert es[..p] == gs[..p];
    AdvanceFrame(q, es, gs, 0, SCAN_START, p);
    SearchAdvances(q, es, 0, SCAN_START, p);
    SearchAdvances(q, gs, 0, SCAN_START, p);
    var a := Advance(q, es, 0, SCAN_START, p);
    if a.At? {
      FreeScanned(q, gs, p, a.s, p + n);
      SearchAdvances(q, gs, p, a.s, p + n);
      FreeSearched(q, es, gs, p, a.s, p + n);
    }
  }

  /** A scan from p over free entries up to m, then over what both directories share. */
  lemma {:induction false} FreeSearched(q: Query, es: seq<Entry>, gs: seq<Entry>, p: nat, s: Scan, m: nat)
    requires WellFormed(es) && |gs| == |es| && p < m <= |es| && (forall j :: p <= j < m ==> Free(es[j]))
    requires forall j :: m <= j < |es| ==> gs[j] == es[j]
    ensures Search(q, es, p, s) == Search(q, gs, m, Reset(s))
    decreases m - p
  {
    if es[p][0] == 0 {
      ZeroFrom(es, p, m);
      if m < |es| {
        assert gs[m][0] == 0;
      }
    } else if p + 1 < m {
      FreeSearched(q, es, gs, p + 1, Reset(s), m);
    } else {
      SameTail(q, es, gs, m, Reset(s));
    }
  }

  lemma {:induction false} ZeroFrom(es: seq<Entry>, p: nat, m: nat)
    requires WellFormed(es) && p < m <= |es| && es[p][0] == 0
    ensures m < |es| ==> es[m][0] == 0
    decreases m - p
  {
    if p + 1 < |es| {
      assert Follows(es[p], es[p + 1]);
      if p + 1 < m {
        ZeroFrom(es, p + 1, m);
      }
    }
  }

  lemma {:induction false} SameTail(q: Query, es: seq<Entry>, gs: seq<Entry>, i: nat, s: Scan)
    requires |gs| == |es| && i <= |es| && forall j :: i <= j < |es| ==> gs[j] == es[j]
    ensures Search(q, es, i, s) == Search(q, gs, i, s)
    decreases |es| - i
  {
    hide Look;
    if i < |es| {
      match Look(q, s, es[i], i)
      case Ended =>
      case Matched(_) =>
      case GoOn(t) => SameTail(q, es, gs, i + 1, t);
    }
  }

  /** Zero entries at the end change nothing. */
  lemma {:induction false} ZerosAtEnd(q: Query, es: seq<Entry>, longer: seq<Entry>, i: nat, s: Scan)
    requires i <= |es| && es <= longer && forall j :: |es| <= j < |longer| ==> longer[j][0] == 0
    ensures Search(q, longer, i, s) == Search(q, es, i, s)
    decreases |es| - i
  {
    hide Look;
    if i < |es| {
      match Look(q, s, es[i], i)
      case Ended =>
      case Matched(_) =>
      case GoOn(t) => ZerosAtEnd(q, es, longer, i + 1, t);
    } else if i < |longer| {
      ZeroEnds(q, s, longer[i], i);
    }
  }

  lemma ZeroEnds(q: Query, s: Scan, e: Entry, i: nat)
    requires e[0] == 0
    ensures Look(q, s, e, i) == Ended
  {
  }
}
