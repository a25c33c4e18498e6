/** Listing a directory, and the round trip of a name from a path through the directory and back. */
module Listing {
  import opened Bytes
  import opened Utf
  import opened DirEntries
  import opened Volumes
  import opened LongNames
  import opened NameSegments
  import opened ShortNames
  import opened DirTables
  import opened Directories
  import opened DirOps

  const DOT: byte := 0x2E

  /** State of a listing: the order expected next, the checksum, and whether a long name is under way. */
  datatype Reading = Reading(ord: nat, sum: byte, buf: Buffer, long: bool)

  /** A volume label: not listed. */
  predicate IsLabel(e: Entry) {
    var a := Attr(e);
    (if a / 0x20 % 2 == 1 then a - 0x20 else a) == AM_VOL
  }

  /** An entry a listing passes over: free, a dot entry or the volume label. */
  predicate Passed(e: Entry) {
    Free(e) || e[0] == DOT || IsLabel(e)
  }

  /** The entry of a part of a long name. */
  predicate IsLongPart(e: Entry) {
    !Passed(e) && Attr(e) == AM_LFN as nat
  }

  /** The entry of a file or directory. */
  predicate IsObject(e: Entry) {
    !Passed(e) && Attr(e) != AM_LFN as nat
  }

  /** No object from entry at up to entry p, and not the end of the directory. */
  ghost predicate NoneFrom(es: seq<Entry>, at: nat, p: nat) {
    at <= p <= |es| && forall j :: at <= j < p ==> es[j][0] != 0 && !IsObject(es[j])
  }

  /** The entries from s up to i are parts of one long name, in order, none missing, the last part of the name first. */
  ghost predicate PartsFrom(es: seq<Entry>, s: nat, i: nat) {
    && s < i <= |es| && Starts(es[s])
    && forall j :: s <= j < i ==>
      && IsLongPart(es[j]) && Takes(es[j]) && Order(es[j]) + (j - s) == Order(es[s])
      && es[j][LDIR_CHKSUM] == es[s][LDIR_CHKSUM] && (j > s ==> !Starts(es[j]))
  }

  /** They are all parts of the name, and it belongs to the short name of entry x. */
  ghost predicate NameBefore(es: seq<Entry>, s: nat, x: nat) {
    x < |es| && PartsFrom(es, s, x) && Order(es[s]) == x - s && es[s][LDIR_CHKSUM] == SumOf(es[x][..11])
  }

  /** A long name of entry x stands before it, from entry at on. */
  ghost predicate HasName(es: seq<Entry>, at: nat, x: nat) {
    exists s :: at <= s && NameBefore(es, s, x)
  }

  ghost predicate AllInBuffer(buf: Buffer, es: seq<Entry>, s: nat, i: nat)
    requires PartsFrom(es, s, i)
  {
    forall j :: s <= j < i ==> InBuffer(buf, es[j])
  }

  /** The object at entry x is read from entry at on: with its long name, in the buffer, exactly if it has one. */
  ghost predicate IsRead(es: seq<Entry>, at: nat, x: nat, buf: Buffer, long: bool) {
    && NoneFrom(es, at, x) && x < |es| && IsObject(es[x]) && (long <==> HasName(es, at, x))
    && forall s :: at <= s && NameBefore(es, s, x) ==> AllInBuffer(buf, es, s, x)
  }

  /** The reading before entry i: a long name is under way exactly if the entries just read are parts of one. */
  ghost predicate Underway(r: Reading, es: seq<Entry>, at: nat, i: nat) {
    && (r.ord != NO_ORDER ==> exists s :: at <= s && PartsFrom(es, s, i))
    && forall s :: at <= s && PartsFrom(es, s, i) ==>
      r.ord == Order(es[s]) - (i - s) && r.sum == es[s][LDIR_CHKSUM] && r.long && AllInBuffer(r.buf, es, s, i)
  }

  /** To pick one part more leaves those before it where they are. */
  lemma PartAdded(was: Buffer, buf: Buffer, es: seq<Entry>, s: nat, i: nat)
    requires PartsFrom(es, s, i + 1) && Takes(es[i]) && InBuffer(buf, es[i]) && KeptElsewhere(was, buf, es[i])
    requires s < i ==> PartsFrom(es, s, i) && AllInBuffer(was, es, s, i)
    ensures AllInBuffer(buf, es, s, i + 1)
  {
    forall j | s <= j < i + 1
      ensures InBuffer(buf, es[j])
    {
      if j < i {
        assert Order(es[j]) == Order(es[i]) + (i - j) && InBuffer(was, es[j]);
        PartElsewhere(was, buf, es[j], es[i]);
      }
    }
  }

  lemma PartElsewhere(was: Buffer, buf: Buffer, e: Entry, f: Entry)
    requires Takes(e) && InBuffer(was, e) && KeptElsewhere(was, buf, f) && Order(e) > Order(f) >= 1 && !Starts(f)
    ensures InBuffer(buf, e)
  {
    hide LdSlot, Terminated;
    assert PlaceOf(e) >= PlaceOf(f) + 13 && PlaceOf(f) >= 0;
  }

  /** The state once one part more is read. */
  lemma PartRead(r: Reading, t: Reading, r': Reading, es: seq<Entry>, at: nat, i: nat)
    requires at <= i < |es| && IsLongPart(es[i]) && Underway(r, es, at, i)
    requires t.buf == r.buf
             && if Starts(es[i]) then t.ord == Order(es[i]) && t.sum == es[i][LDIR_CHKSUM] && t.long
                else t == r
    requires r'.sum == t.sum && r'.long == t.long
    requires if Order(es[i]) == t.ord && t.sum == es[i][LDIR_CHKSUM] && Takes(es[i]) then
               r'.ord == t.ord - 1 && InBuffer(r'.buf, es[i]) && KeptElsewhere(r.buf, r'.buf, es[i])
             else r'.ord == NO_ORDER
    ensures Underway(r', es, at, i + 1)
  {
    hide Takes, InBuffer, KeptElsewhere, AllInBuffer, IsLongPart;
    forall s | at <= s && PartsFrom(es, s, i + 1)
      ensures r'.ord == Order(es[s]) - (i + 1 - s) && r'.sum == es[s][LDIR_CHKSUM] && r'.long
              && AllInBuffer(r'.buf, es, s, i + 1)
    {
      if s < i {
        assert PartsFrom(es, s, i);
      }
      PartAdded(r.buf, r'.buf, es, s, i);
    }
    if r'.ord != NO_ORDER {
      if Starts(es[i]) {
        assert PartsFrom(es, i, i + 1);
      } else {
        var s :| at <= s && PartsFrom(es, s, i);
        assert PartsFrom(es, s, i + 1);
      }
    }
  }

  /** Take up one part of a long name. */
  method ReadPart(r: Reading, e: Entry, ghost es: seq<Entry>, ghost at: nat, ghost i: nat) returns (r': Reading)
    requires at <= i < |es| && e == es[i] && IsLongPart(e) && Underway(r, es, at, i)
    ensures Underway(r', es, at, i + 1)
  {
    hide Underway, IsLongPart, Takes, InBuffer, KeptElsewhere;
    r' := r;
    if Starts(e) {
      r' := Reading(Order(e), e[LDIR_CHKSUM], r.buf, true);
    }
    ghost var t := r';
    var ok, buf := false, r'.buf;
    if Order(e) == r'.ord && r'.sum == e[LDIR_CHKSUM] {
      ok, buf := PickLfn(r'.buf, e);
    }
    r' := Reading(if ok then (r'.ord + 0xFF) % 0x100 else NO_ORDER, r'.sum, buf, r'.long);
    TakenOrder(e);
    PartRead(r, t, r', es, at, i);
  }

  lemma TakenOrder(e: Entry)
    ensures Order(e) < NO_ORDER && (Takes(e) ==> Order(e) >= 1)
  {
  }

  lemma LongNameRead(r: Reading, es: seq<Entry>, at: nat, x: nat)
    requires at <= x < |es| && Underway(r, es, at, x)
    ensures r.ord == 0 && r.sum == SumOf(es[x][..11]) && r.long <==> HasName(es, at, x)
    ensures forall s :: at <= s && NameBefore(es, s, x) ==> AllInBuffer(r.buf, es, s, x)
  {
    hide SumOf, AllInBuffer, PartsFrom;
    if r.ord == 0 && r.sum == SumOf(es[x][..11]) {
      var s :| at <= s && PartsFrom(es, s, x);
      PartsInside(es, s, x);
      assert NameBefore(es, s, x);
    }
  }

  lemma PartsInside(es: seq<Entry>, s: nat, i: nat)
    requires PartsFrom(es, s, i)
    ensures s < i <= |es|
  {
  }

  datatype ReadStep = EndOfTable | Object(buf: Buffer, long: bool) | KeepOn(r: Reading)

  /** Take up one entry. */
  method ReadEntry(r: Reading, e: Entry, ghost es: seq<Entry>, ghost at: nat, ghost i: nat) returns (s: ReadStep)
    requires at <= i < |es| && e == es[i] && Underway(r, es, at, i)
    ensures s.EndOfTable? <==> e[0] == 0
    ensures s.Object? <==> IsObject(e)
    ensures s.Object? && NoneFrom(es, at, i) ==> IsRead(es, at, i, s.buf, s.long)
    ensures s.KeepOn? ==> Underway(s.r, es, at, i + 1)
  {
    hide SumOf, AllInBuffer, NameBefore;
    if e[0] == 0 {
      return EndOfTable;
    }
    if e[0] == DDEM || e[0] == DOT || IsLabel(e) {
      return KeepOn(r.(ord := NO_ORDER));
    }
    if Attr(e) == AM_LFN as nat {
      var t := ReadPart(r, e, es, at, i);
      return KeepOn(t);
    }
    LongNameRead(r, es, at, i);
    var sum := SumSfn(e[..11]);
    s := Object(r.buf, r.ord == 0 && r.sum == sum && r.long);
  }

  /** Read the next object from the cursor on, at entry x, with its long name exactly if the entries before it are one
      and belong to it. */
  method DirRead(d: Dir, buf0: Buffer, ghost at: nat) returns (res: FResult, e: Entry, buf: Buffer, long: bool,
                                                               ghost x: nat)
    requires d.Valid() && d.AtEntry(at) && at < RowCount(d.table)
    modifies d`dptr, d`clust, d`sect, d`chain, d`table, d.fs
    ensures res == FrOk || res == FrNoFile || res == FrDiskErr
    ensures res != FrDiskErr ==>
              d.Valid() && d.table == old(d.table) && NoneFrom(Rows(d.table), at, x)
    ensures res == FrOk ==> IsRead(Rows(d.table), at, x, buf, long) && d.AtEntry(x) && e == Rows(d.table)[x]
    ensures res == FrNoFile ==> x == RowCount(d.table) || Rows(d.table)[x][0] == 0
    ensures d.fs.reliable ==> res != FrDiskErr
  {
    hide TableOn, EntryAt, Dir.AtEntry, Rows, Underway, IsRead, IsObject;
    var r := Reading(NO_ORDER, 0xFF, buf0, false);
    ghost var es := Rows(d.table);
    x := at;
    buf, long := buf0, false;
    NoneUnderway(r, es, at);
    while true
      invariant x < RowCount(d.table) && d.Valid() && d.AtEntry(x) && d.table == old(d.table)
      invariant NoneFrom(es, at, x) && Underway(r, es, at, x)
      decreases MAX_ENTRIES - x
    {
      res, e := d.Load(x);
      if res != FrOk {
        return;
      }
      var s := ReadEntry(r, e, es, at, x);
      match s {
        case EndOfTable => return FrNoFile, e, buf, long, x;
        case Object(b, l) => return FrOk, e, b, l, x;
        case KeepOn(t) => r := t;
      }
      res := d.Next(false, x);
      x := x + 1;
      if res != FrOk {
        return;
      }
    }
  }

  lemma NoneUnderway(r: Reading, es: seq<Entry>, at: nat)
    requires r.ord == NO_ORDER
    ensures Underway(r, es, at, at)
  {
  }

  /** The characters of ASCII as the FAT standard sorts them: those a short name can have, those only a long name can
      have, and those no name can have. */
  lemma StandardCharacters(c: nat)
    requires c < 0x80
    ensures Legal(c) && ShortChar(c) <==> LetterOrDigit(c) || c as char in "$%'-_@~`!(){}^#&"
    ensures Legal(c) && !ShortChar(c) <==> c as char in " .+,;=[]"
    ensures InSegment(c) && !Legal(c) <==> c as char in "*:<>|?\"" || c == 0x7F
  {
    ShortCharacters(c);
    LongCharacters(c);
    hide Legal, ShortChar, LetterOrDigit;
  }

  lemma ShortCharacters(c: nat)
    requires c < 0x80
    ensures Legal(c) && ShortChar(c) <==> LetterOrDigit(c) || c as char in "$%'-_@~`!(){}^#&"
  {
  }

  lemma LongCharacters(c: nat)
    requires c < 0x80
    ensures Legal(c) && !ShortChar(c) <==> c as char in " .+,;=[]"
    ensures InSegment(c) && !Legal(c) <==> c as char in "*:<>|?\"" || c == 0x7F
  {
  }

  predicate LetterOrDigit(c: nat) {
    'A' as nat <= c <= 'Z' as nat || 'a' as nat <= c <= 'z' as nat || '0' as nat <= c <= '9' as nat
  }

  /** Capitals are made of the 26 small letters. */
  lemma StandardCapitals(c: nat)
    ensures Raised(c) == if 'a' as nat <= c <= 'z' as nat then c - 'a' as nat + 'A' as nat else c
    ensures Upper(c) <==> 'A' as nat <= c <= 'Z' as nat
  {
  }

  /** What an entry is, by its first byte and its attributes, of which two bits do not count. */
  lemma EntryKinds(e: Entry)
    ensures Free(e) <==> e[0] == 0x00 || e[0] == 0xE5
    ensures IsLong(e) <==> !Free(e) && e[11] as nat % 0x40 == 0x0F
    ensures IsVolume(e) <==> e[11] as nat % 0x10 >= 8 && e[11] as nat % 0x40 != 0x0F
    ensures IsLabel(e) <==> e[11] as nat % 0x40 == 0x08 || e[11] as nat % 0x40 == 0x28
    ensures IsLongPart(e) <==> !Passed(e) && e[11] as nat % 0x40 == 0x0F
  {
  }

  // ---- Reading a name that was registered ------------------------------------------------------

  /** From entry at on, a listing comes to entry p. */
  ghost predicate Comes(es: seq<Entry>, at: nat, p: nat) {
    at <= p <= |es| && forall j :: at <= j < p ==> Passed(es[j]) && es[j][0] != 0
  }

  /** What entry i of a name's block is. */
  lemma BlockEntry(es: seq<Entry>, p: nat, n: nat, lfn: seq<Unit>, fn: Field, i: nat)
    requires Block(es, p, n, lfn, fn) && Usable(fn) && p <= i < p + n
    ensures es[i][0] != 0 && !Passed(es[i]) && (IsLongPart(es[i]) <==> i < p + n - 1)
    ensures i < p + n - 1 ==>
            Name(lfn) && n == Parts(lfn) + 1 && IsPart(es[i], lfn, Parts(lfn) - (i - p), SumOf(fn))
    ensures i == p + n - 1 ==> es[i][..11] == fn
  {
    if i < p + n - 1 {
      PartOrder(lfn, es[i], p + n - 1 - i, SumOf(fn));
    } else {
      assert es[i][..11][0] == fn[0];
    }
  }

  lemma NameParts(es: seq<Entry>, s: nat, x: nat)
    requires NameBefore(es, s, x)
    ensures PartsFrom(es, s, x)
  {
  }

  /** The next object a listing that comes to the entries of a name finds is the name's short entry. */
  lemma ObjectRead(es: seq<Entry>, at: nat, p: nat, n: nat, lfn: seq<Unit>, fn: Field, x: nat)
    requires Comes(es, at, p) && Block(es, p, n, lfn, fn) && Usable(fn) && NoneFrom(es, at, x)
    ensures 0 < n && p + n <= |es| && x < p + n
    ensures es[x][0] == 0 || IsObject(es[x]) ==> x == p + n - 1 && es[x][0] != 0
  {
    BlockEntry(es, p, n, lfn, fn, p + n - 1);
    if p <= x < p + n {
      BlockEntry(es, p, n, lfn, fn, x);
    }
    hide Passed, Block, Usable;
  }

  /** And the name read with it is the name. */
  lemma NameRead(es: seq<Entry>, at: nat, p: nat, n: nat, lfn: seq<Unit>, fn: Field)
    requires Comes(es, at, p) && Block(es, p, n, lfn, fn) && Usable(fn)
    ensures 0 < n && p + n <= |es| && (n > 1 <==> HasName(es, at, p + n - 1))
    ensures n > 1 ==> NameBefore(es, p, p + n - 1)
  {
    forall i | p <= i < p + n
      ensures !Passed(es[i]) && (IsLongPart(es[i]) <==> i < p + n - 1)
      ensures i < p + n - 1 ==>
              && Takes(es[i]) && Order(es[i]) == p + n - 1 - i && (Starts(es[i]) <==> i == p)
              && es[i][LDIR_CHKSUM] == SumOf(fn)
      ensures i == p + n - 1 ==> es[i][..11] == fn
    {
      BlockEntry(es, p, n, lfn, fn, i);
      if i < p + n - 1 {
        PartOrder(lfn, es[i], p + n - 1 - i, SumOf(fn));
        PartTaken(es[i], lfn, p + n - 1 - i, SumOf(fn));
      }
    }
    hide Passed, Usable, Takes, SumOf, Order, Starts, IsPart;
    if n > 1 {
      assert PartsFrom(es, p, p + n - 1);
      assert NameBefore(es, p, p + n - 1);
    }
  }

  lemma {:induction false} NameHeld(buf: Buffer, es: seq<Entry>, p: nat, n: nat, lfn: seq<Unit>, fn: Field, k: nat)
    requires Block(es, p, n, lfn, fn) && Usable(fn) && n > 1 && 0 < k < n
    requires PartsFrom(es, p, p + n - 1) && AllInBuffer(buf, es, p, p + n - 1)
    ensures n == Parts(lfn) + 1 && HoldsFrom(buf, lfn, 13 * (n - 1 - k))
    decreases k
  {
    BlockEntry(es, p, n, lfn, fn, p + k - 1);
    assert InBuffer(buf, es[p + k - 1]);
    hide Usable, HoldsFrom, IsPart, InBuffer, PartsFrom;
    if k > 1 {
      NameHeld(buf, es, p, n, lfn, fn, k - 1);
    }
    PartTaken(es[p + k - 1], lfn, n - k, SumOf(fn));
    PartHeld(buf, es[p + k - 1], lfn, n - k, SumOf(fn));
  }

  // ---- From a path segment to a name -----------------------------------------------------------

  datatype Segment = BadName | DotName(dots: nat) | Named(lfn: seq<Unit>, fn: Field, cf: Flags)

  /** Units of legal characters are printable; none is zero or the filler unless the character is U+FFFF. */
  lemma {:induction false} LegalUnits(cs: seq<nat>)
    requires AllScalar(cs) && AllLegal(cs)
    ensures forall k :: 0 <= k < |Utf16All(cs)| ==> Utf16All(cs)[k] >= 0x20
    ensures 0xFFFF !in cs ==> forall k :: 0 <= k < |Utf16All(cs)| ==> Utf16All(cs)[k] != FILLER
    decreases |cs|
  {
    hide Illegal;
    if cs != [] {
      var c := cs[|cs| - 1];
      LegalUnits(cs[..|cs| - 1]);
      if c >= 0x1_0000 {
        SurrogateParts(c);
      }
    }
  }

  lemma ShorterLegal(cs: seq<nat>, m: nat)
    requires AllScalar(cs) && AllLegal(cs) && m <= |cs|
    ensures AllScalar(cs[..m]) && AllLegal(cs[..m]) && |Utf16All(cs[..m])| <= |Utf16All(cs)|
  {
    PrefixEncodings(cs, m);
  }

  const ONE_DOT: seq<nat> := [0x2E]
  const TWO_DOTS: seq<nat> := [0x2E, 0x2E]

  lemma DotsText()
    ensures Utf16All(ONE_DOT) == ONE_DOT && Utf16All(TWO_DOTS) == TWO_DOTS
  {
    assert Utf16(0x2E) == [0x2E];
    hide Utf16;
    EmptyName();
    assert ONE_DOT[..0] == [] && TWO_DOTS[..1] == ONE_DOT;
  }

  /** The units of a text are one or two dots exactly if its characters are. */
  lemma DotsRead(cs: seq<nat>)
    requires AllScalar(cs)
    ensures Utf16All(cs) == ONE_DOT <==> cs == ONE_DOT
    ensures Utf16All(cs) == TWO_DOTS <==> cs == TWO_DOTS
  {
    DotsText();
    hide Utf16All, Utf8All;
    if Utf16All(cs) == ONE_DOT || Utf16All(cs) == TWO_DOTS {
      AsciiName(cs);
    }
  }

  /** The name of a path segment: its characters without trailing spaces and dots, and its short form. */
  method CreateName(path: seq<byte>, start: nat, oem: Unit -> byte, ghost want: seq<nat>, ghost wat: seq<nat>)
    returns (r: Segment, ghost cs: seq<nat>, ghost at: seq<nat>)
    requires start <= |path| && forall u: Unit :: oem(u) != 0x2E
    ensures r.Named? ==>
              && SegmentIs(path, at, cs) && at[0] == start && r.lfn == Utf16All(cs[..StripEnd(cs)])
              && 0 < |r.lfn| <= MAX_LFN && AllLegal(cs[..StripEnd(cs)]) && StripEnd(cs) > 0
              && Usable(r.fn) && (r.cf.loss ==> r.cf.lfn) && (!r.cf.lfn ==> IsShort(r.lfn, r.fn, r.cf.body, r.cf.ext))
              && MadeShort(r.lfn, oem, r.fn, r.cf)
    ensures r.DotName? ==>
              SegmentIs(path, at, cs) && at[0] == start && cs == if r.dots == 1 then ONE_DOT else TWO_DOTS
    ensures SegmentIs(path, wat, want) && wat[0] == start ==>
              if want == ONE_DOT || want == TWO_DOTS then r == DotName(|want|)
              else if exists k :: 0 <= k < |want| && !Blank(want[k]) then
                r.Named? && cs == want && r.lfn == Utf16All(want[..StripEnd(want)])
              else r == BadName
  {
    hide ReadChar, Utf16All, Legal, IsShort, Usable, EndsAt, ReadAs, MadeShort, SegmentIs;
    var s: NameSegments.Step, lfn: seq<Unit>;
    s, lfn, cs, at := ReadSegment(path, start, want, wat);
    if s.Fail? {
      return BadName, cs, at;
    }
    SegmentScalar(path, at, cs);
    DotsRead(cs);
    if lfn == [0x2E] || lfn == [0x2E, 0x2E] {
      return DotName(|lfn|), cs, at;
    }
    lfn := Strip(lfn, cs);
    ghost var m := StripEnd(cs);
    ShorterLegal(cs, m);
    LegalUnits(cs[..m]);
    if lfn == [] {
      AllStripped(cs, m);
      return BadName, cs, at;
    }
    EmptyName();
    LastOfName(cs, m);
    var fn, cf := MakeShort(lfn, oem);
    NeedsNoLong(lfn, oem, fn, cf);
    r := Named(lfn, fn, cf);
  }

  lemma SegmentScalar(path: seq<byte>, at: seq<nat>, cs: seq<nat>)
    requires SegmentIs(path, at, cs)
    ensures AllScalar(cs) && AllLegal(cs) && |Utf16All(cs)| <= MAX_LFN
  {
  }

  lemma AllStripped(cs: seq<nat>, m: nat)
    requires AllScalar(cs) && StripsTo(cs, m) && Utf16All(cs[..m]) == []
    ensures m == 0
  {
    if m > 0 {
      LastOfName(cs, m);
    }
  }

  // ---- The round trip --------------------------------------------------------------------------

  /** The working buffer with a name and its terminator in it. */
  function Loaded(was: Buffer, lfn: seq<Unit>): (b: Buffer)
    requires |lfn| <= MAX_LFN
    ensures HoldsFrom(b, lfn, 0)
  {
    lfn + [0] + was[|lfn| + 1..]
  }

  /** An ASCII name is the same in UTF-16 and in UTF-8. */
  lemma {:induction false} AsciiName(cs: seq<nat>)
    requires AllScalar(cs) && forall k :: 0 <= k < |Utf16All(cs)| ==> Utf16All(cs)[k] < 0x80
    ensures |Utf8All(cs)| == |Utf16All(cs)| && forall k :: 0 <= k < |Utf8All(cs)| ==>
            Utf8All(cs)[k] as nat == Utf16All(cs)[k]
    ensures cs == Utf16All(cs)
    decreases |cs|
  {
    if cs != [] {
      var r, c := cs[..|cs| - 1], cs[|cs| - 1];
      AsciiLast(cs);
      hide Utf16All, Utf8All;
      AsciiName(r);
      assert cs == r + [c];
    }
  }

  lemma AsciiLast(cs: seq<nat>)
    requires AllScalar(cs) && cs != [] && forall k :: 0 <= k < |Utf16All(cs)| ==> Utf16All(cs)[k] < 0x80
    ensures var r, c := cs[..|cs| - 1], cs[|cs| - 1];
            && c < 0x80 && Utf16All(cs) == Utf16All(r) + [c] && Utf8All(cs) == Utf8All(r) + [c]
            && forall k :: 0 <= k < |Utf16All(r)| ==> Utf16All(r)[k] < 0x80
  {
    var r, c := cs[..|cs| - 1], cs[|cs| - 1];
    var u, v := Utf16All(cs), Utf16All(r);
    assert u == v + Utf16(c) && Utf8All(cs) == Utf8All(r) + Utf8(c);
    hide Utf16All, Utf8All;
    assert u[|u| - 1] == Utf16(c)[|Utf16(c)| - 1];
    LastUnit(c);
    assert forall k :: 0 <= k < |v| ==> v[k] == u[k];
  }

  lemma ShortIsAscii(lfn: seq<Unit>, fn: Field, body: bool, ext: bool)
    requires IsShort(lfn, fn, body, ext)
    ensures forall k :: 0 <= k < |lfn| ==> lfn[k] < 0x80
  {
    var di :| 0 <= di <= |lfn| && IsShortAt(lfn, di, fn, body, ext);
    forall k | 0 <= k < |lfn|
      ensures lfn[k] < 0x80
    {
      CaseRestored(lfn, di, fn, body, ext, k);
    }
  }

  function HasBody(e: Entry): bool {
    e[DIR_NTRES] as nat / 8 % 2 == 1
  }

  function HasExt(e: Entry): bool {
    e[DIR_NTRES] as nat / 16 % 2 == 1
  }

  lemma CaseFlags(fn: Field, body: bool, ext: bool)
    ensures HasBody(Stamped(ShortEntry(fn, body, ext))) == body && HasExt(Stamped(ShortEntry(fn, body, ext))) == ext
  {
    StampedFields(ShortEntry(fn, body, ext));
    hide Stamped;
  }

  /** The text is the short name's of the entry in its cases, or "?" if it has none. */
  ghost predicate IsShortText(e: Entry, uni: byte -> Unit, text: seq<byte>) {
    var alt := AltOf(e[..11], uni, 11).text;
    if alt == [] then text == [0x3F]
    else |text| == |alt| && forall k :: 0 <= k < |alt| ==> text[k] == CasedByte(alt, k, HasBody(e), HasExt(e))
  }

  /** The name shown for an entry and the long name read before it: the long one as text if it is well formed and fits,
      else the short one. */
  method FileName(e: Entry, buf: Buffer, long: bool, uni: byte -> Unit, ghost cs: seq<nat>, ghost fn: Field)
    returns (fname: seq<byte>, ghost got: seq<nat>)
    requires forall c: byte :: c < 0x80 ==> uni(c) == c as nat
    requires long ==> exists j :: 0 <= j < 256 && buf[j] == 0
    ensures long && NameIs(buf, cs) && 0 < |Utf8All(cs)| <= LFN_BUF ==> fname == Utf8All(cs)
    ensures !long && AllScalar(cs) && e[..11] == fn && IsShort(Utf16All(cs), fn, HasBody(e), HasExt(e)) ==>
            fname == Utf8All(cs)
    ensures (long && NameIs(buf, got) && fname == Utf8All(got)) || IsShortText(e, uni, fname)
  {
    hide Utf8All, Utf16All, IsShort, AltOf;
    var text := [];
    got := [];
    if long {
      text, got := LongText(buf, cs);
    }
    ghost var lfn: seq<Unit> := if AllScalar(cs) then Utf16All(cs) else [];
    fname := ShownName(text, e[..11], uni, HasBody(e), HasExt(e));
    if !long && AllScalar(cs) && e[..11] == fn && IsShort(Utf16All(cs), fn, HasBody(e), HasExt(e)) {
      ShownInCases(fn, uni, lfn, HasBody(e), HasExt(e), fname);
      ShortIsAscii(lfn, fn, HasBody(e), HasExt(e));
      AsciiName(cs);
    }
  }

  lemma Shown(cs: seq<nat>, lfn: seq<Unit>, buf: Buffer, n: nat)
    requires AllScalar(cs) && AllLegal(cs) && cs != [] && lfn == Utf16All(cs) && |lfn| <= MAX_LFN
             && (n > 1 ==> HoldsFrom(buf, lfn, 0))
    ensures n > 1 ==> NameIs(buf, cs) && exists j :: 0 <= j < 256 && buf[j] == 0
    ensures |Utf8All(cs)| > 0
  {
    if n > 1 {
      assert buf[|lfn|] == 0;
    }
  }

  /** The segment at start spells these characters and is not "." or ".." or all spaces and dots. */
  ghost predicate Spells(path: seq<byte>, start: nat, at: seq<nat>, cs: seq<nat>)
    requires start <= |path|
  {
    && SegmentIs(path, at, cs) && at[0] == start && cs != [0x2E] && cs != [0x2E, 0x2E]
    && exists k :: 0 <= k < |cs| && !Blank(cs[k])
  }

  /** The query is for the name of the segment. */
  ghost predicate QueryFor(q: Query, r: Segment, up: Unit -> Unit) {
    && r.Named? && HoldsFrom(q.buf, r.lfn, 0) && q.fn == r.fn && q.up == up && !q.noLong && q.loss == r.cf.loss
  }

  /** Without the character U+FFFF a name does not hold the filler. */
  lemma NoFiller(cs: seq<nat>, m: nat)
    requires AllScalar(cs) && AllLegal(cs) && StripsTo(cs, m)
    ensures 0xFFFF !in cs ==> FILLER !in Utf16All(cs[..m])
  {
    hide Utf16All;
    ShorterLegal(cs, m);
    LegalUnits(cs[..m]);
  }

  lemma Storable(cs: seq<nat>, m: nat, lfn: seq<Unit>)
    requires AllScalar(cs) && AllLegal(cs) && StripsTo(cs, m) && lfn == Utf16All(cs[..m]) && 0 < |lfn| <= MAX_LFN
             && FILLER !in lfn
    ensures m <= |cs| && cs[..m] != [] && AllScalar(cs[..m]) && AllLegal(cs[..m]) && Name(lfn) && 0xFFFF !in cs[..m]
  {
    hide Utf16All;
    ShorterLegal(cs, m);
    LegalUnits(cs[..m]);
    if 0xFFFF in cs[..m] {
      FillerShows(cs[..m]);
    }
    if m == 0 {
      EmptyName();
    }
  }

  lemma {:induction false} FillerShows(cs: seq<nat>)
    requires AllScalar(cs) && 0xFFFF in cs
    ensures FILLER in Utf16All(cs)
    decreases |cs|
  {
    var r, c := cs[..|cs| - 1], cs[|cs| - 1];
    assert Utf16All(cs) == Utf16All(r) + Utf16(c);
    if c == 0xFFFF {
      assert Utf16(c) == [0xFFFF];
    } else {
      hide Utf16, Utf16All;
      assert cs == r + [c];
      FillerShows(r);
    }
  }
}
