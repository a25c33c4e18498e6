/** Short 8.3 names with their case flags. */
module ShortNames {
  import opened Bytes
  import opened Utf
  import opened LongNames

  type Field = f: seq<byte> | |f| == 11 witness seq(11, _ => 0)

  const SPACE: byte := 0x20
  const DDEM: byte := 0xE5
  const RDDEM: byte := 0x05
  const SFN_BUF: nat := 12

  predicate Upper(c: nat) {
    0x41 <= c <= 0x5A
  }

  predicate Lower(c: nat) {
    0x61 <= c <= 0x7A
  }

  /** Characters a long name may hold and a short one not. */
  predicate BadForShort(c: nat): (r: bool)
    ensures r ==> c < 0x80 && !Upper(c) && !Lower(c)
  {
    c in [0x2B, 0x2C, 0x3B, 0x3D, 0x5B, 0x5D]
  }

  /** Which cases a field has seen. */
  datatype Cases = Cases(upper: bool, lower: bool) {
    predicate Mixed() {
      upper && lower
    }
  }

  /** The flags of a name: not exactly 8.3, long name needed, lower-case body, lower-case extension. */
  datatype Flags = Flags(loss: bool, lfn: bool, body: bool, ext: bool)

  function Raised(c: nat): nat {
    if Lower(c) then c - 0x20 else c
  }

  /** Units [from, to) are short-name characters in one field, stored in capitals at fn[at..]. */
  ghost predicate Stored(lfn: seq<Unit>, from: nat, to: nat, fn: Field, at: nat) {
    && from <= to <= |lfn| && at + (to - from) <= 11
    && forall k :: from <= k < to ==> ShortChar(lfn[k]) && fn[at + k - from] as nat == Raised(lfn[k])
  }

  predicate ShortChar(c: nat) {
    0x20 < c < 0x80 && c != 0x2E && !BadForShort(c)
  }

  ghost predicate SawCases(lfn: seq<Unit>, from: nat, to: nat, s: Cases)
    requires from <= to <= |lfn|
  {
    && (s.upper <==> exists k :: from <= k < to && Upper(lfn[k]))
    && (s.lower <==> exists k :: from <= k < to && Lower(lfn[k]))
  }

  ghost predicate Blanks(fn: Field, from: nat, to: nat)
    requires from <= to <= 11
  {
    forall j :: from <= j < to ==> fn[j] == SPACE
  }

  /** The place just after the last dot, or 0. */
  ghost predicate LastDot(lfn: seq<Unit>, di: nat) {
    && di <= |lfn| && (di > 0 ==> lfn[di - 1] == 0x2E) && forall k :: di <= k < |lfn| ==> lfn[k] != 0x2E
  }

  /** What a name means that needs no long form: fn is the name in capitals, each field of one case. */
  ghost predicate IsShort(lfn: seq<Unit>, fn: Field, body: bool, ext: bool) {
    exists di :: 0 <= di <= |lfn| && IsShortAt(lfn, di, fn, body, ext)
  }

  ghost predicate OneCase(lfn: seq<Unit>, from: nat, to: nat, lower: bool)
    requires from <= to <= |lfn|
  {
    forall k :: from <= k < to ==> if lower then !Upper(lfn[k]) else !Lower(lfn[k])
  }

  ghost predicate IsShortAt(lfn: seq<Unit>, di: nat, fn: Field, body: bool, ext: bool) {
    && FitsAt(lfn, di, fn)
    && OneCase(lfn, 0, if di == 0 then |lfn| else di - 1, body)
    && (di > 0 ==> OneCase(lfn, di, |lfn|, ext))
  }

  /** The name is 8.3 but for its cases, and fn is it in capitals. */
  ghost predicate Fits(lfn: seq<Unit>, fn: Field) {
    exists di :: 0 <= di <= |lfn| && FitsAt(lfn, di, fn)
  }

  ghost predicate FitsAt(lfn: seq<Unit>, di: nat, fn: Field) {
    && LastDot(lfn, di)
    && var n := if di == 0 then |lfn| else di - 1;
       && 0 < n <= 8 && Stored(lfn, 0, n, fn, 0) && Blanks(fn, n, 8)
       && if di == 0 then Blanks(fn, 8, 11)
          else
            0 < |lfn| - di <= 3 && Stored(lfn, di, |lfn|, fn, 8) && Blanks(fn, 8 + |lfn| - di, 11)
  }

  // ---- What a short name is made of ------------------------------------------------------------

  /** A character in the code page. */
  function InPage(u: Unit, oem: Unit -> byte): byte {
    if u < 0x80 then u else oem(u)
  }

  /** It is not there or may not be in a short name. */
  predicate Replaced(u: Unit, oem: Unit -> byte) {
    InPage(u, oem) == 0 || BadForShort(InPage(u, oem) as nat)
  }

  /** What it is stored as. */
  function ShortByte(u: Unit, oem: Unit -> byte): byte {
    if Replaced(u, oem) then 0x5F else Raised(InPage(u, oem) as nat)
  }

  /** Dropped or replaced. */
  predicate Lost(u: Unit, oem: Unit -> byte) {
    u == 0x20 || u == 0x2E || Replaced(u, oem)
  }

  /** The characters but for spaces and dots. */
  function Kept(s: seq<Unit>): (r: seq<Unit>)
    ensures |r| <= |s|
  {
    if s == [] then []
    else Kept(s[..|s| - 1]) + if s[|s| - 1] == 0x20 || s[|s| - 1] == 0x2E then [] else [s[|s| - 1]]
  }

  /** Where the body ends. */
  function BodyEnd(lfn: seq<Unit>, di: nat): nat {
    if di == 0 then |lfn| else di - 1
  }

  /** Byte k of a field with these characters, cut or padded. */
  function FieldByte(s: seq<Unit>, k: nat, oem: Unit -> byte): byte {
    if k < |s| then ShortByte(s[k], oem) else SPACE
  }

  function NotDeleted(b: byte): byte {
    if b == DDEM then RDDEM else b
  }

  /** fn is the name in short form, its last dot being before di: eight characters of the body and three of the
      extension, without spaces and dots, in capitals of the code page. */
  ghost predicate ShortenedAt(lfn: seq<Unit>, oem: Unit -> byte, di: nat, fn: Field)
    requires di <= |lfn|
  {
    var body, ext := Kept(lfn[..BodyEnd(lfn, di)]), if di == 0 then [] else Kept(lfn[di..]);
    && LastDot(lfn, di)
    && fn[0] == NotDeleted(FieldByte(body, 0, oem)) && (forall k :: 1 <= k < 8 ==> fn[k] == FieldByte(body, k, oem))
    && forall k :: 8 <= k < 11 ==> fn[k] == FieldByte(ext, k - 8, oem)
  }

  ghost predicate Shortened(lfn: seq<Unit>, oem: Unit -> byte, fn: Field) {
    exists di: nat :: di <= |lfn| && ShortenedAt(lfn, oem, di, fn)
  }

  /** None of the characters is lost. */
  ghost predicate NoneLost(lfn: seq<Unit>, from: nat, to: nat, oem: Unit -> byte)
    requires from <= to <= |lfn|
  {
    forall k :: from <= k < to ==> !Lost(lfn[k], oem)
  }

  /** The name is 8.3 in the code page: nothing of it is lost in its short form but the cases. */
  ghost predicate Is83At(lfn: seq<Unit>, oem: Unit -> byte, di: nat)
    requires di <= |lfn|
  {
    && LastDot(lfn, di) && 0 < BodyEnd(lfn, di) <= 8 && NoneLost(lfn, 0, BodyEnd(lfn, di), oem)
    && (di > 0 ==> |lfn| - di <= 3 && NoneLost(lfn, di, |lfn|, oem))
  }

  ghost predicate Is83(lfn: seq<Unit>, oem: Unit -> byte) {
    exists di: nat :: di <= |lfn| && Is83At(lfn, oem, di)
  }

  lemma OneLastDot(lfn: seq<Unit>, di: nat, dj: nat)
    requires LastDot(lfn, di) && LastDot(lfn, dj)
    ensures di == dj
  {
  }

  lemma OneShortened(lfn: seq<Unit>, oem: Unit -> byte, x: Field, y: Field)
    requires Shortened(lfn, oem, x) && Shortened(lfn, oem, y)
    ensures x == y
  {
    hide Kept, FieldByte;
    var di: nat :| di <= |lfn| && ShortenedAt(lfn, oem, di, x);
    var dj: nat :| dj <= |lfn| && ShortenedAt(lfn, oem, dj, y);
    OneLastDot(lfn, di, dj);
    assert forall k :: 0 <= k < 11 ==> x[k] == y[k];
  }

  lemma {:induction false} KeptAll(s: seq<Unit>)
    requires forall k :: 0 <= k < |s| ==> s[k] != 0x20 && s[k] != 0x2E
    ensures Kept(s) == s
    decreases |s|
  {
    if s != [] {
      KeptAll(s[..|s| - 1]);
    }
  }

  /** Byte k of the field of a name of which nothing is dropped. */
  function PlainByte(lfn: seq<Unit>, di: nat, k: nat, oem: Unit -> byte): byte
    requires di <= |lfn|
  {
    if k < 8 then if k < BodyEnd(lfn, di) then ShortByte(lfn[k], oem) else SPACE
    else if 0 < di && di + k - 8 < |lfn| then ShortByte(lfn[di + k - 8], oem) else SPACE
  }

  ghost predicate PlainAt(lfn: seq<Unit>, oem: Unit -> byte, di: nat, fn: Field)
    requires di <= |lfn|
  {
    && LastDot(lfn, di) && fn[0] == NotDeleted(PlainByte(lfn, di, 0, oem))
    && forall k :: 1 <= k < 11 ==> fn[k] == PlainByte(lfn, di, k, oem)
  }

  lemma NoneDropped(lfn: seq<Unit>, oem: Unit -> byte, di: nat, fn: Field)
    requires di <= |lfn| && forall k :: 0 <= k < |lfn| && k + 1 != di ==> lfn[k] != 0x20 && lfn[k] != 0x2E
    ensures ShortenedAt(lfn, oem, di, fn) <==> PlainAt(lfn, oem, di, fn)
  {
    KeptAll(lfn[..BodyEnd(lfn, di)]);
    if di > 0 {
      KeptAll(lfn[di..]);
    }
    hide Kept, LastDot, ShortByte;
    var body, ext := lfn[..BodyEnd(lfn, di)], if di == 0 then [] else lfn[di..];
    assert forall k :: 0 <= k < 8 ==> FieldByte(body, k, oem) == PlainByte(lfn, di, k, oem);
    assert forall k :: 8 <= k < 11 ==> FieldByte(ext, k - 8, oem) == PlainByte(lfn, di, k, oem);
  }

  lemma AsciiChar(u: Unit, oem: Unit -> byte)
    requires 0x20 <= u < 0x80
    ensures !Lost(u, oem) <==> ShortChar(u)
    ensures ShortChar(u) ==> ShortByte(u, oem) as nat == Raised(u) < 0x80
  {
  }

  /** An 8.3 name of ASCII characters fits a short name as it is. */
  lemma AsciiFits(lfn: seq<Unit>, oem: Unit -> byte, fn: Field)
    requires Is83(lfn, oem) && Shortened(lfn, oem, fn)
    requires forall k :: 0 <= k < |lfn| ==> 0x20 <= lfn[k] < 0x80
    requires lfn != [] && lfn[|lfn| - 1] != 0x2E
    ensures Fits(lfn, fn)
  {
    hide LastDot, Kept, ShortChar, ShortByte, Lost;
    var di: nat :| di <= |lfn| && Is83At(lfn, oem, di);
    var dj: nat :| dj <= |lfn| && ShortenedAt(lfn, oem, dj, fn);
    hide ShortenedAt;
    OneIs83(lfn, oem, di);
    DotOf(lfn, oem, di, dj, fn);
    NoneDropped(lfn, oem, di, fn);
    forall k: nat | k < |lfn| && k + 1 != di
      ensures ShortChar(lfn[k]) && ShortByte(lfn[k], oem) as nat == Raised(lfn[k]) < 0x80
    {
      AsciiChar(lfn[k], oem);
    }
    hide Raised;
    assert FitsAt(lfn, di, fn);
  }

  lemma DotOf(lfn: seq<Unit>, oem: Unit -> byte, di: nat, dj: nat, fn: Field)
    requires di <= |lfn| && LastDot(lfn, di) && dj <= |lfn| && ShortenedAt(lfn, oem, dj, fn)
    ensures di == dj
  {
    OneLastDot(lfn, di, dj);
  }

  lemma OneIs83(lfn: seq<Unit>, oem: Unit -> byte, di: nat)
    requires di <= |lfn| && Is83At(lfn, oem, di) && lfn != []
    ensures LastDot(lfn, di) && (di > 0 ==> lfn[di - 1] == 0x2E) && (lfn[|lfn| - 1] != 0x2E ==> di < |lfn|)
    ensures forall k :: 0 <= k < |lfn| && k + 1 != di ==> lfn[k] != 0x20 && lfn[k] != 0x2E && !Lost(lfn[k], oem)
  {
  }

  /** And the other way: what fits a short name is 8.3, and stored as it is. */
  lemma FitsIs83(lfn: seq<Unit>, oem: Unit -> byte, fn: Field)
    requires Fits(lfn, fn)
    ensures Is83(lfn, oem) && Shortened(lfn, oem, fn)
    ensures forall k :: 0 <= k < |lfn| ==> 0x20 < lfn[k] < 0x80
  {
    hide Kept, ShortByte, Lost;
    var di :| 0 <= di <= |lfn| && FitsAt(lfn, di, fn);
    forall k: nat | k < |lfn| && k + 1 != di
      ensures 0x20 < lfn[k] < 0x80 && lfn[k] != 0x2E && ShortByte(lfn[k], oem) as nat == Raised(lfn[k]) < 0x80
      ensures !Lost(lfn[k], oem)
    {
      AsciiChar(lfn[k], oem);
    }
    NoneDropped(lfn, oem, di, fn);
    hide ShortenedAt;
    assert Is83At(lfn, oem, di);
    assert PlainAt(lfn, oem, di, fn);
  }

  // ---- Making a short name ---------------------------------------------------------------------

  /** The first characters of a field are there, the rest is blank. */
  ghost predicate Fills(fn: Field, at: nat, to: nat, s: seq<Unit>, oem: Unit -> byte)
    requires at <= to <= 11
  {
    && at + |s| <= to && (forall k :: 0 <= k < |s| ==> fn[at + k] == ShortByte(s[k], oem))
    && Blanks(fn, at + |s|, to)
  }

  ghost predicate SomeExtended(lfn: seq<Unit>, from: nat, to: nat)
    requires from <= to <= |lfn|
  {
    exists k :: from <= k < to && lfn[k] >= 0x80
  }

  function Seen(s: Cases, c: nat): Cases {
    Cases(s.upper || Upper(c), s.lower || Lower(c))
  }

  /** In the body, before character si. */
  ghost predicate InBody(lfn: seq<Unit>, oem: Unit -> byte, di: nat, si: nat, i: nat, fn: Field, loss: bool,
                         long: bool, cur: Cases)
  {
    && LastDot(lfn, di) && lfn != [] && si <= BodyEnd(lfn, di)
    && i == |Kept(lfn[..si])| && Fills(fn, 0, 8, Kept(lfn[..si]), oem) && Blanks(fn, 8, 11)
    && (loss <==> lfn[0] == 0x2E || !NoneLost(lfn, 0, si, oem)) && (long <==> loss || SomeExtended(lfn, 0, si))
    && (!long ==> SawCases(lfn, 0, si, cur))
  }

  /** The body is lossy. */
  ghost predicate BodyLost(lfn: seq<Unit>, oem: Unit -> byte, di: nat)
    requires di <= |lfn|
  {
    !(0 < BodyEnd(lfn, di) <= 8 && NoneLost(lfn, 0, BodyEnd(lfn, di), oem))
  }

  /** The eight bytes of the body. */
  ghost predicate HasBody8(fn: Field, lfn: seq<Unit>, oem: Unit -> byte, di: nat)
    requires di <= |lfn|
  {
    forall k :: 0 <= k < 8 ==> fn[k] == FieldByte(Kept(lfn[..BodyEnd(lfn, di)]), k, oem)
  }

  /** In the extension, before character si. */
  ghost predicate InExt(lfn: seq<Unit>, oem: Unit -> byte, di: nat, si: nat, i: nat, fn: Field, loss: bool, long: bool,
                        body: Cases, cur: Cases)
  {
    && LastDot(lfn, di) && 0 < di <= si <= |lfn| && HasBody8(fn, lfn, oem, di)
    && i == 8 + |Kept(lfn[di..si])| && Fills(fn, 8, 11, Kept(lfn[di..si]), oem)
    && (loss <==> BodyLost(lfn, oem, di) || !NoneLost(lfn, di, si, oem))
    && (long <==> loss || SomeExtended(lfn, 0, di - 1) || SomeExtended(lfn, di, si))
    && (!long ==> SawCases(lfn, 0, di - 1, body) && SawCases(lfn, di, si, cur))
  }

  /** Put one character into the field, in capitals. */
  method StoreChar(fn: Field, i: nat, wc0: Unit, cur: Cases, oem: Unit -> byte)
    returns (r: Field, seen: Cases, loss: bool, long: bool)
    requires i < 11
    ensures r == fn[i := ShortByte(wc0, oem)] && (loss <==> Replaced(wc0, oem)) && (long <==> loss || wc0 >= 0x80)
    ensures !long ==> seen == Seen(cur, wc0)
  {
    loss, long, seen := false, false, cur;
    var wc: nat := wc0;
    if wc >= 0x80 {
      long := true;
      wc := oem(wc0) as nat;
    }
    if wc == 0 || BadForShort(wc) {
      wc := 0x5F;
      loss, long := true, true;
    } else if Upper(wc) {
      seen := cur.(upper := true);
    } else if Lower(wc) {
      seen := cur.(lower := true);
      wc := wc - 0x20;
    }
    r := fn[i := wc];
  }

  /** Where the extension starts: just after the last dot. */
  method FindDot(lfn: seq<Unit>) returns (di: nat)
    ensures LastDot(lfn, di)
  {
    di := |lfn|;
    while di > 0 && lfn[di - 1] != 0x2E
      invariant di <= |lfn| && forall k :: di <= k < |lfn| ==> lfn[k] != 0x2E
    {
      di := di - 1;
    }
  }

  // Steps of the conversion: a character dropped, one stored, the end of the body.

  lemma KeptOn(s: seq<Unit>, from: nat, si: nat)
    requires from <= si < |s|
    ensures Kept(s[from..si + 1]) == Kept(s[from..si]) + if s[si] == 0x20 || s[si] == 0x2E then [] else [s[si]]
  {
    assert s[from..si + 1][..si - from] == s[from..si];
  }

  lemma BodyStart(lfn: seq<Unit>, oem: Unit -> byte, di: nat, si: nat, fn: Field, loss: bool)
    requires LastDot(lfn, di) && lfn != [] && lfn[|lfn| - 1] != 0x20 && Blanks(fn, 0, 11)
    requires si < |lfn| && lfn[si] != 0x20 && forall k :: 0 <= k < si ==> lfn[k] == 0x20
    requires loss <==> si > 0 || lfn[si] == 0x2E
    ensures InBody(lfn, oem, di, si, 0, fn, loss, loss, Cases(false, false))
  {
    NothingKept(lfn[..si]);
    assert si > 0 ==> Lost(lfn[0], oem);
  }

  lemma {:induction false} NothingKept(s: seq<Unit>)
    requires forall k :: 0 <= k < |s| ==> s[k] == 0x20
    ensures Kept(s) == []
    decreases |s|
  {
    if s != [] {
      NothingKept(s[..|s| - 1]);
    }
  }

  lemma DropInBody(lfn: seq<Unit>, oem: Unit -> byte, di: nat, si: nat, i: nat, fn: Field, loss: bool, long: bool,
                   cur: Cases)
    requires InBody(lfn, oem, di, si, i, fn, loss, long, cur) && si < |lfn| && si + 1 != di
             && (lfn[si] == 0x20 || lfn[si] == 0x2E)
    ensures InBody(lfn, oem, di, si + 1, i, fn, true, true, cur)
  {
    assert lfn[..si] == lfn[0..si] && lfn[..si + 1] == lfn[0..si + 1];
    KeptOn(lfn, 0, si);
    hide Kept;
    assert Lost(lfn[si], oem);
  }

  lemma DropInExt(lfn: seq<Unit>, oem: Unit -> byte, di: nat, si: nat, i: nat, fn: Field, loss: bool, long: bool,
                  body: Cases, cur: Cases)
    requires InExt(lfn, oem, di, si, i, fn, loss, long, body, cur) && si < |lfn|
             && (lfn[si] == 0x20 || lfn[si] == 0x2E)
    ensures InExt(lfn, oem, di, si + 1, i, fn, true, true, body, cur)
  {
    KeptOn(lfn, di, si);
    hide Kept;
    assert Lost(lfn[si], oem);
  }

  lemma SeenOne(lfn: seq<Unit>, from: nat, si: nat, cur: Cases)
    requires from <= si < |lfn| && SawCases(lfn, from, si, cur)
    ensures SawCases(lfn, from, si + 1, Seen(cur, lfn[si]))
  {
  }

  lemma StoreInBody(lfn: seq<Unit>, oem: Unit -> byte, di: nat, si: nat, i: nat, fn: Field, loss: bool, long: bool,
                    cur: Cases, seen: Cases)
    requires InBody(lfn, oem, di, si, i, fn, loss, long, cur) && si < |lfn| && si + 1 != di && i < 8
             && lfn[si] != 0x20 && lfn[si] != 0x2E
             && (lfn[si] < 0x80 && !Replaced(lfn[si], oem) ==> seen == Seen(cur, lfn[si]))
    ensures InBody(lfn, oem, di, si + 1, i + 1, fn[i := ShortByte(lfn[si], oem)], loss || Replaced(lfn[si], oem),
            long || Replaced(lfn[si], oem) || lfn[si] >= 0x80, seen)
  {
    assert lfn[..si] == lfn[0..si] && lfn[..si + 1] == lfn[0..si + 1];
    KeptOn(lfn, 0, si);
    hide Kept, ShortByte, Replaced;
    assert Lost(lfn[si], oem) <==> Replaced(lfn[si], oem);
    if !long {
      SeenOne(lfn, 0, si, cur);
    }
    hide SawCases, Lost;
  }

  lemma StoreInExt(lfn: seq<Unit>, oem: Unit -> byte, di: nat, si: nat, i: nat, fn: Field, loss: bool, long: bool,
                   body: Cases, cur: Cases, seen: Cases)
    requires InExt(lfn, oem, di, si, i, fn, loss, long, body, cur) && si < |lfn| && i < 11
             && lfn[si] != 0x20 && lfn[si] != 0x2E
             && (lfn[si] < 0x80 && !Replaced(lfn[si], oem) ==> seen == Seen(cur, lfn[si]))
    ensures InExt(lfn, oem, di, si + 1, i + 1, fn[i := ShortByte(lfn[si], oem)], loss || Replaced(lfn[si], oem),
            long || Replaced(lfn[si], oem) || lfn[si] >= 0x80, body, seen)
  {
    KeptOn(lfn, di, si);
    hide Kept, ShortByte, Replaced;
    assert Lost(lfn[si], oem) <==> Replaced(lfn[si], oem);
    if !long {
      SeenOne(lfn, di, si, cur);
    }
    hide SawCases, Lost;
  }

  lemma {:induction false} KeptPrefix(s: seq<Unit>, m: nat)
    requires m <= |s|
    ensures Kept(s[..m]) <= Kept(s)
    decreases |s|
  {
    if m < |s| {
      KeptPrefix(s[..|s| - 1], m);
      assert s[..|s| - 1][..m] == s[..m];
    } else {
      assert s[..m] == s;
    }
  }

  lemma {:induction false} KeptMore(s: seq<Unit>, m: nat)
    requires m < |s| && s[m] != 0x20 && s[m] != 0x2E
    ensures Kept(s[..m]) <= Kept(s) && |Kept(s[..m])| < |Kept(s)|
  {
    assert s[..m + 1][..m] == s[..m];
    KeptPrefix(s, m + 1);
    assert Kept(s[..m + 1]) == Kept(s[..m]) + [s[m]];
  }

  /** The body is at its end, or there is no room for its next character. */
  ghost predicate BodyOver(lfn: seq<Unit>, di: nat, si: nat, i: nat)
    requires si <= |lfn| && di <= |lfn|
  {
    si == BodyEnd(lfn, di) || (i == 8 && si < BodyEnd(lfn, di) && lfn[si] != 0x20 && lfn[si] != 0x2E)
  }

  lemma BodyIs(lfn: seq<Unit>, oem: Unit -> byte, di: nat, si: nat, i: nat, fn: Field, loss: bool, long: bool,
               cur: Cases)
    requires InBody(lfn, oem, di, si, i, fn, loss, long, cur) && BodyOver(lfn, di, si, i)
    ensures HasBody8(fn, lfn, oem, di)
    ensures BodyLost(lfn, oem, di) <==> loss || si != BodyEnd(lfn, di)
  {
    var e := BodyEnd(lfn, di);
    assert lfn[..e][..si] == lfn[..si];
    if si < e {
      KeptMore(lfn[..e], si);
    }
    if NoneLost(lfn, 0, si, oem) {
      KeptAll(lfn[..si]);
    }
    hide Kept;
  }

  lemma EnterExt(lfn: seq<Unit>, oem: Unit -> byte, di: nat, si: nat, i: nat, fn: Field, loss: bool, long: bool,
                 cur: Cases)
    requires InBody(lfn, oem, di, si, i, fn, loss, long, cur) && BodyOver(lfn, di, si, i) && di > 0
    ensures var over := si != BodyEnd(lfn, di);
            InExt(lfn, oem, di, di, 8, fn, loss || over, long || over, cur, Cases(false, false))
  {
    BodyIs(lfn, oem, di, si, i, fn, loss, long, cur);
  }

  /** The conversion is done: there is no extension or it is over. */
  ghost predicate Converted(lfn: seq<Unit>, oem: Unit -> byte, di: nat, fn: Field, loss: bool, long: bool, ext: bool,
                            body: Cases, cur: Cases)
  {
    && LastDot(lfn, di) && (ext <==> di > 0) && HasBody8(fn, lfn, oem, di)
    && (forall k :: 8 <= k < 11 ==> fn[k] == FieldByte(if ext then Kept(lfn[di..]) else [], k - 8, oem))
    && (loss <==> !Is83At(lfn, oem, di)) && (long <==> loss || SomeExtended(lfn, 0, |lfn|))
    && (!long ==>
          if ext then SawCases(lfn, 0, di - 1, body) && SawCases(lfn, di, |lfn|, cur) else SawCases(lfn, 0, |lfn|, cur))
  }

  lemma DoneInBody(lfn: seq<Unit>, oem: Unit -> byte, si: nat, i: nat, fn: Field, loss: bool, long: bool, cur: Cases)
    requires InBody(lfn, oem, 0, si, i, fn, loss, long, cur) && BodyOver(lfn, 0, si, i)
    ensures var over := si != |lfn|;
            Converted(lfn, oem, 0, fn, loss || over, long || over, false, Cases(false, false), cur)
  {
    BodyIs(lfn, oem, 0, si, i, fn, loss, long, cur);
    hide Kept;
  }

  lemma ExtBytes(lfn: seq<Unit>, oem: Unit -> byte, di: nat, si: nat, i: nat, fn: Field)
    requires 0 < di <= si <= |lfn| && i == 8 + |Kept(lfn[di..si])| && Fills(fn, 8, 11, Kept(lfn[di..si]), oem)
    requires si == |lfn| || (i == 11 && lfn[si] != 0x20 && lfn[si] != 0x2E)
    ensures forall k :: 8 <= k < 11 ==> fn[k] == FieldByte(Kept(lfn[di..]), k - 8, oem)
  {
    var s := lfn[di..];
    assert s[..si - di] == lfn[di..si];
    if si < |lfn| {
      KeptMore(s, si - di);
    } else {
      assert s == lfn[di..si];
    }
    hide Kept, ShortByte;
  }

  lemma ExtLost(lfn: seq<Unit>, oem: Unit -> byte, di: nat, si: nat, i: nat)
    requires 0 < di <= si <= |lfn| && i == 8 + |Kept(lfn[di..si])| <= 11 && (si < |lfn| ==> i == 11)
    ensures NoneLost(lfn, di, |lfn|, oem) && |lfn| - di <= 3 <==> si == |lfn| && NoneLost(lfn, di, si, oem)
  {
    if NoneLost(lfn, di, si, oem) {
      KeptAll(lfn[di..si]);
    }
    hide Kept;
  }

  lemma ExtIs(lfn: seq<Unit>, oem: Unit -> byte, di: nat, si: nat, i: nat, fn: Field, loss: bool, long: bool,
              body: Cases, cur: Cases)
    requires InExt(lfn, oem, di, si, i, fn, loss, long, body, cur)
    requires si == |lfn| || (i == 11 && lfn[si] != 0x20 && lfn[si] != 0x2E)
    ensures forall k :: 8 <= k < 11 ==> fn[k] == FieldByte(Kept(lfn[di..]), k - 8, oem)
    ensures loss || si != |lfn| <==> !Is83At(lfn, oem, di)
  {
    ExtBytes(lfn, oem, di, si, i, fn);
    ExtLost(lfn, oem, di, si, i);
    hide Kept, HasBody8, SawCases, NoneLost, FieldByte, SomeExtended;
  }

  lemma ExtendedIs(lfn: seq<Unit>, di: nat)
    requires 0 < di <= |lfn| && lfn[di - 1] == 0x2E
    ensures SomeExtended(lfn, 0, |lfn|) <==> SomeExtended(lfn, 0, di - 1) || SomeExtended(lfn, di, |lfn|)
  {
  }

  lemma DoneInExt(lfn: seq<Unit>, oem: Unit -> byte, di: nat, si: nat, i: nat, fn: Field, loss: bool, long: bool,
                  body: Cases, cur: Cases)
    requires InExt(lfn, oem, di, si, i, fn, loss, long, body, cur)
    requires si == |lfn| || (i == 11 && lfn[si] != 0x20 && lfn[si] != 0x2E)
    ensures var over := si != |lfn|; Converted(lfn, oem, di, fn, loss || over, long || over, true, body, cur)
  {
    ExtIs(lfn, oem, di, si, i, fn, loss, long, body, cur);
    ExtendedIs(lfn, di);
    hide Kept, HasBody8, SawCases, BodyLost, NoneLost, Is83At, Fills, FieldByte, SomeExtended;
  }

  /** The flags say what became of the name: loss that it is not 8.3, lfn that it needs a long form, because it is not
      8.3 of ASCII characters, each field of one case; body and ext, in which case they are. */
  ghost predicate MadeShort(lfn: seq<Unit>, oem: Unit -> byte, fn: Field, cf: Flags) {
    && Shortened(lfn, oem, fn) && (cf.loss <==> !Is83(lfn, oem))
    && (cf.lfn <==> !exists b: bool, e: bool :: IsShort(lfn, fn, b, e))
    && (!cf.lfn ==> IsShort(lfn, fn, cf.body, cf.ext))
    && forall di: nat :: LastDot(lfn, di) ==> CasesNoted(lfn, di, cf)
  }

  /** Unless the long form is kept, the flags say in which field there are lower-case letters. */
  ghost predicate CasesNoted(lfn: seq<Unit>, di: nat, cf: Flags)
    requires di <= |lfn|
  {
    && (cf.body <==> !cf.lfn && SomeLower(lfn, 0, BodyEnd(lfn, di)))
    && (cf.ext <==> !cf.lfn && di > 0 && SomeLower(lfn, di, |lfn|))
  }

  ghost predicate SomeLower(lfn: seq<Unit>, from: nat, to: nat)
    requires from <= to <= |lfn|
  {
    exists k :: from <= k < to && Lower(lfn[k])
  }

  lemma ConvertedIs(lfn: seq<Unit>, oem: Unit -> byte, di: nat, fn: Field, loss: bool, long: bool, ext: bool,
                    body: Cases, cur: Cases)
    requires Converted(lfn, oem, di, fn, loss, long, ext, body, cur) && lfn != [] && lfn[|lfn| - 1] != 0x2E
    requires (forall k :: 0 <= k < |lfn| ==> lfn[k] >= 0x20) && (!ext ==> body == Cases(false, false))
    ensures var first, second := if ext then body else cur, if ext then cur else body;
            var all := long || body.Mixed() || cur.Mixed();
            MadeShort(lfn, oem, fn[0 := NotDeleted(fn[0])],
            Flags(loss, all, !all && first.lower, !all && second.lower))
    ensures loss ==> long
  {
    var f := fn[0 := NotDeleted(fn[0])];
    assert ShortenedAt(lfn, oem, di, f) by {
      hide Kept, FieldByte;
      assert lfn[di..] == lfn[di..|lfn|];
    }
    hide ShortenedAt, HasBody8, FieldByte, Kept;
    Only83(lfn, oem, di);
    ShortIff(lfn, oem, di, f, loss, long, ext, body, cur);
    forall dj: nat | LastDot(lfn, dj)
      ensures dj == di
    {
      OneLastDot(lfn, di, dj);
    }
    hide LastDot, SomeLower, SawCases, IsShort, Shortened, Is83, SomeExtended;
  }

  lemma Only83(lfn: seq<Unit>, oem: Unit -> byte, di: nat)
    requires di <= |lfn| && LastDot(lfn, di)
    ensures Is83(lfn, oem) <==> Is83At(lfn, oem, di)
  {
    if Is83(lfn, oem) {
      var dj: nat :| dj <= |lfn| && Is83At(lfn, oem, dj);
      OneLastDot(lfn, di, dj);
    }
  }

  lemma ShortIff(lfn: seq<Unit>, oem: Unit -> byte, di: nat, f: Field, loss: bool, long: bool, ext: bool, body: Cases,
                 cur: Cases)
    requires di <= |lfn| && LastDot(lfn, di) && Shortened(lfn, oem, f) && (ext <==> di > 0)
    requires (loss <==> !Is83(lfn, oem)) && (long <==> loss || SomeExtended(lfn, 0, |lfn|))
    requires !long ==>
               if ext then SawCases(lfn, 0, di - 1, body) && SawCases(lfn, di, |lfn|, cur)
               else SawCases(lfn, 0, |lfn|, cur)
    requires lfn != [] && lfn[|lfn| - 1] != 0x2E && (forall k :: 0 <= k < |lfn| ==> lfn[k] >= 0x20)
    requires !ext ==> body == Cases(false, false)
    ensures (exists b: bool, e: bool :: IsShort(lfn, f, b, e)) <==> !long && !body.Mixed() && !cur.Mixed()
    ensures !long && !body.Mixed() && !cur.Mixed() ==>
              IsShort(lfn, f, if ext then body.lower else cur.lower, ext && cur.lower)
    ensures !long ==>
              && ((if ext then body.lower else cur.lower) <==> SomeLower(lfn, 0, BodyEnd(lfn, di)))
              && ((if ext then cur.lower else body.lower) <==> di > 0 && SomeLower(lfn, di, |lfn|))
  {
    hide Shortened, Is83;
    if !long {
      AsciiFits(lfn, oem, f);
      var dj :| 0 <= dj <= |lfn| && FitsAt(lfn, dj, f);
      OneLastDot(lfn, di, dj);
      if !body.Mixed() && !cur.Mixed() {
        assert IsShortAt(lfn, di, f, if ext then body.lower else cur.lower, ext && cur.lower);
        assert IsShort(lfn, f, if ext then body.lower else cur.lower, ext && cur.lower);
      }
    }
    forall b: bool, e: bool | IsShort(lfn, f, b, e)
      ensures !long && !body.Mixed() && !cur.Mixed()
    {
      var dj :| 0 <= dj <= |lfn| && IsShortAt(lfn, dj, f, b, e);
      OneLastDot(lfn, di, dj);
      FitsIs83(lfn, oem, f);
    }
  }

  /** The name in directory form. oem maps the remaining characters to the code page, 0 for none. */
  method MakeShort(lfn: seq<Unit>, oem: Unit -> byte) returns (fn: Field, cf: Flags)
    requires |lfn| <= MAX_LFN && lfn != [] && forall k :: 0 <= k < |lfn| ==> lfn[k] >= 0x20
    requires lfn[|lfn| - 1] != 0x20 && lfn[|lfn| - 1] != 0x2E && forall u: Unit :: oem(u) != 0x2E
    ensures MadeShort(lfn, oem, fn, cf) && (cf.loss ==> cf.lfn)
    ensures Usable(fn)
  {
    hide InBody, InExt, Converted, MadeShort, IsShort, LastDot, Kept, ShortByte, Replaced, Usable;
    fn := seq(11, _ => SPACE);
    var si: nat := 0;
    while UnitAt(lfn, si) == 0x20
      invariant si <= |lfn| && forall k :: 0 <= k < si ==> lfn[k] == 0x20
      decreases |lfn| - si
    {
      si := si + 1;
    }
    var loss := si > 0 || UnitAt(lfn, si) == 0x2E;
    var long := loss;
    var di := FindDot(lfn);
    var i: nat, ext, body, cur := 0, false, Cases(false, false), Cases(false, false);
    BodyStart(lfn, oem, di, si, fn, loss);
    while true
      invariant i <= 11 && si <= |lfn| && (!ext ==> body == Cases(false, false))
      invariant if ext then InExt(lfn, oem, di, si, i, fn, loss, long, body, cur)
                else InBody(lfn, oem, di, si, i, fn, loss, long, cur)
      decreases |lfn| - si, !ext
    {
      Places(lfn, oem, di, si, i, ext, fn, loss, long, body, cur);
      var wc := UnitAt(lfn, si);
      if wc == 0 {
        if ext {
          DoneInExt(lfn, oem, di, si, i, fn, loss, long, body, cur);
        } else {
          DoneInBody(lfn, oem, si, i, fn, loss, long, cur);
        }
        break;
      }
      si := si + 1;
      if wc == 0x20 || (wc == 0x2E && si != di) {
        if ext {
          DropInExt(lfn, oem, di, si - 1, i, fn, loss, long, body, cur);
        } else {
          DropInBody(lfn, oem, di, si - 1, i, fn, loss, long, cur);
        }
        loss, long := true, true;
        continue;
      }
      if i >= (if ext then 11 else 8) || si == di {
        if ext {
          DoneInExt(lfn, oem, di, si - 1, i, fn, loss, long, body, cur);
          loss, long := true, true;
          break;
        }
        if di > 0 {
          EnterExt(lfn, oem, di, si - 1, i, fn, loss, long, cur);
        } else {
          DoneInBody(lfn, oem, si - 1, i, fn, loss, long, cur);
        }
        if si != di {
          loss, long := true, true;
        }
        if si > di {
          break;
        }
        si, i, ext, body, cur := di, 8, true, cur, Cases(false, false);
        continue;
      }
      var lossHere, longHere: bool;
      ghost var was, before := fn, cur;
      fn, cur, lossHere, longHere := StoreChar(fn, i, wc, cur, oem);
      if ext {
        StoreInExt(lfn, oem, di, si - 1, i, was, loss, long, body, before, cur);
      } else {
        StoreInBody(lfn, oem, di, si - 1, i, was, loss, long, before, cur);
      }
      loss, long := loss || lossHere, long || longHere;
      i := i + 1;
    }
    ConvertedIs(lfn, oem, di, fn, loss, long, ext, body, cur);
    assert fn[0 := fn[0]] == fn;
    if fn[0] == DDEM {
      fn := fn[0 := RDDEM];
    }
    if !ext {
      body, cur := cur, Cases(false, false);
    }
    if body.Mixed() || cur.Mixed() {
      long := true;
    }
    cf := Flags(loss, long, !long && body.lower, !long && cur.lower);
    ShortIsUsable(lfn, oem, fn, cf);
  }

  /** A name that fits a short name is stored as it is, without loss. */
  lemma FitsMade(lfn: seq<Unit>, oem: Unit -> byte, fn: Field, cf: Flags, f: Field)
    requires MadeShort(lfn, oem, fn, cf) && Fits(lfn, f)
    ensures !cf.loss && fn == f
  {
    hide Shortened, Is83, IsShort, Fits;
    FitsIs83(lfn, oem, f);
    OneShortened(lfn, oem, fn, f);
  }

  lemma NeedsNoLong(lfn: seq<Unit>, oem: Unit -> byte, fn: Field, cf: Flags)
    requires MadeShort(lfn, oem, fn, cf)
    ensures !cf.lfn ==> IsShort(lfn, fn, cf.body, cf.ext)
  {
  }

  /** A name of ASCII characters is stored without loss if and only if it fits a short name, cases aside. */
  lemma AsciiLoss(lfn: seq<Unit>, oem: Unit -> byte, fn: Field, cf: Flags)
    requires MadeShort(lfn, oem, fn, cf) && forall k :: 0 <= k < |lfn| ==> 0x20 <= lfn[k] < 0x80
    requires lfn != [] && lfn[|lfn| - 1] != 0x2E
    ensures !cf.loss <==> exists f: Field :: Fits(lfn, f)
  {
    hide Shortened, Is83, IsShort, Fits;
    if !cf.loss {
      AsciiFits(lfn, oem, fn);
    }
    forall f: Field | Fits(lfn, f)
      ensures !cf.loss
    {
      FitsMade(lfn, oem, fn, cf, f);
    }
  }

  /** The body of "abcdefghi.x" is too long. */
  lemma LongBody(oem: Unit -> byte, fn: Field, cf: Flags)
    requires MadeShort([0x61, 0x62, 0x63, 0x64, 0x65, 0x66, 0x67, 0x68, 0x69, 0x2E, 0x78], oem, fn, cf)
    ensures cf.loss && fn == [0x41, 0x42, 0x43, 0x44, 0x45, 0x46, 0x47, 0x48, 0x58, SPACE, SPACE]
  {
    hide Shortened, IsShort, Kept, Lost;
    var lfn: seq<Unit> := [0x61, 0x62, 0x63, 0x64, 0x65, 0x66, 0x67, 0x68, 0x69, 0x2E, 0x78];
    var f: Field := [0x41, 0x42, 0x43, 0x44, 0x45, 0x46, 0x47, 0x48, 0x58, SPACE, SPACE];
    Only83(lfn, oem, 10);
    NoneDropped(lfn, oem, 10, f);
    hide ShortenedAt;
    assert PlainAt(lfn, oem, 10, f);
    ShortenedHere(lfn, oem, 10, f);
    OneShortened(lfn, oem, fn, f);
  }

  lemma ShortenedHere(lfn: seq<Unit>, oem: Unit -> byte, di: nat, fn: Field)
    requires di <= |lfn| && ShortenedAt(lfn, oem, di, fn)
    ensures Shortened(lfn, oem, fn)
  {
  }

  /** What the state says about places. */
  lemma Places(lfn: seq<Unit>, oem: Unit -> byte, di: nat, si: nat, i: nat, ext: bool, fn: Field, loss: bool,
               long: bool, body: Cases, cur: Cases)
    requires if ext then InExt(lfn, oem, di, si, i, fn, loss, long, body, cur)
             else InBody(lfn, oem, di, si, i, fn, loss, long, cur)
    ensures di <= |lfn| && if ext then 0 < di <= si && 8 <= i <= 11 else i <= 8 && si <= BodyEnd(lfn, di)
    ensures ext ==> forall k :: di <= k < |lfn| ==> lfn[k] != 0x2E
    ensures di > 0 ==> lfn[di - 1] == 0x2E
    ensures !ext && si < |lfn| && si + 1 != di ==> si < BodyEnd(lfn, di)
  {
  }

  lemma ShortIsUsable(lfn: seq<Unit>, oem: Unit -> byte, fn: Field, cf: Flags)
    requires MadeShort(lfn, oem, fn, cf) && forall u: Unit :: oem(u) != 0x2E
    ensures Usable(fn)
  {
    hide IsShort, Is83, LastDot;
    var di: nat :| di <= |lfn| && ShortenedAt(lfn, oem, di, fn);
    var body, e := Kept(lfn[..BodyEnd(lfn, di)]), if di == 0 then [] else Kept(lfn[di..]);
    KeptHasNoDots(lfn[..BodyEnd(lfn, di)]);
    KeptHasNoDots(lfn[di..]);
    hide Kept;
    forall k: nat | k < 11
      ensures fn[k] != 0 && fn[k] != 0x2E
    {
      assert k >= 8 ==> fn[k] == FieldByte(e, k - 8, oem);
    }
  }

  lemma {:induction false} KeptHasNoDots(s: seq<Unit>)
    ensures forall k :: 0 <= k < |Kept(s)| ==> Kept(s)[k] != 0x2E
    decreases |s|
  {
    if s != [] {
      KeptHasNoDots(s[..|s| - 1]);
    }
  }

  // ---- Numbered names --------------------------------------------------------------------------

  /** No byte is zero or a dot and the first is not the deletion mark, so the name marks an entry in use. */
  ghost predicate Usable(fn: Field) {
    fn[0] != DDEM && forall k :: 0 <= k < 11 ==> fn[k] != 0 && fn[k] != 0x2E
  }

  function HexDigit(n: nat): (d: byte)
    ensures 0x30 <= d < 0x47
  {
    if n % 16 < 10 then 0x30 + n % 16 else 0x37 + n % 16
  }

  /** The number without its last digit. */
  function Higher(n: nat): (r: nat)
    ensures n > 0 ==> r < n
    ensures n < 0x1_0000 ==> r < 0x1000
    ensures n < 0x1000 ==> r < 0x100
    ensures n < 0x100 ==> r < 0x10
    ensures n < 0x10 ==> r == 0
  {
    n / 16
  }

  function HexDigits(n: nat): (ds: seq<byte>) {
    if n == 0 then [] else HexDigits(Higher(n)) + [HexDigit(n)]
  }

  /** The number that hexadecimal digits in capitals stand for. */
  function HexValue(ds: seq<byte>): int {
    if ds == [] then 0 else
      var d := ds[|ds| - 1] as int;
      16 * HexValue(ds[..|ds| - 1]) + if 0x30 <= d <= 0x39 then d - 0x30 else d - 0x41 + 10
  }

  /** The digits stand for the number, and none leads that is not needed. */
  lemma {:induction false} DigitsBack(n: nat)
    ensures HexValue(HexDigits(n)) == n && forall d :: d in HexDigits(n) ==> 0x30 <= d <= 0x39 || 0x41 <= d <= 0x46
    ensures n > 0 ==> HexDigits(n) != [] && HexDigits(n)[0] != 0x30
    decreases n
  {
    if n > 0 {
      DigitsBack(Higher(n));
      assert HexDigits(n)[..|HexDigits(n)| - 1] == HexDigits(Higher(n));
    }
  }

  /** The tail with a number. */
  function NumberTail(n: nat): seq<byte> {
    [0x7E] + if n == 0 then [0x30] else HexDigits(n)
  }

  /** The polynomial x^16 + x^12 + x^5 + 1 over the bits. */
  const POLY: nat := 0x1_1021

  lemma HighestBit()
    ensures Pow2(16) == 0x1_0000
  {
    assert Pow2(4) == 0x10 && Pow2(8) == 0x100 && Pow2(12) == 0x1000;
  }

  /** The hash register after one more bit. */
  function HashBit(r: nat, bit: nat): (s: nat)
    requires r < 0x1_0000 && bit < 2
    ensures s < 0x1_0000
  {
    var s := 2 * r + bit;
    if s >= 0x1_0000 then
      HighestBit();
      XorBelow(s, POLY, 16);
      Xor(s, POLY)
    else s
  }

  /** After the lowest n bits of a unit, the lowest first. */
  function HashBits(r: nat, u: nat, n: nat): (s: nat)
    requires r < 0x1_0000
    ensures s < 0x1_0000
    decreases n
  {
    if n == 0 then r else HashBits(HashBit(r, u % 2), u / 2, n - 1)
  }

  /** After all units of a name. */
  function HashName(r: nat, lfn: seq<Unit>): (s: nat)
    requires r < 0x1_0000
    ensures s < 0x1_0000
  {
    if lfn == [] then r else HashBits(HashName(r, lfn[..|lfn| - 1]), lfn[|lfn| - 1], 16)
  }

  /** The bits of a name behind those of a number, as one number: units in order, the lowest bit of each first. */
  function Stream(w: nat, lfn: seq<Unit>): nat {
    if lfn == [] then w else Appended(Stream(w, lfn[..|lfn| - 1]), lfn[|lfn| - 1], 16)
  }

  function Appended(w: nat, u: nat, n: nat): nat
    decreases n
  {
    if n == 0 then w else Appended(2 * w + u % 2, u / 2, n - 1)
  }

  /** The product of two polynomials over the bits. */
  function Product(q: nat, p: nat): nat {
    if q == 0 then 0 else Xor(2 * Product(q / 2, p), if q % 2 == 1 then p else 0)
  }

  /** r is what is left of w when it is divided by the polynomial. */
  ghost predicate Remainder(w: nat, r: nat) {
    r < 0x1_0000 && exists q: nat :: w == Xor(Product(q, 0x1_1021), r)
  }

  lemma XorShifted(a: nat, b: nat, c: nat)
    requires c < 2
    ensures Xor(2 * a, 2 * b + c) == 2 * Xor(a, b) + c
  {
    assert 2 * a / 2 == a && (2 * b + c) / 2 == b && (2 * b + c) % 2 == c;
  }

  lemma ProductShifted(q: nat, c: nat)
    requires c < 2
    ensures Product(2 * q + c, POLY) == Xor(2 * Product(q, POLY), if c == 1 then POLY else 0)
  {
    assert (2 * q + c) / 2 == q && (2 * q + c) % 2 == c;
    if 2 * q + c == 0 {
      XorZero(0);
    }
    hide Xor;
  }

  lemma BitLeaves(w: nat, p: nat, r: nat, bit: nat)
    requires w == Xor(p, r) && r < 0x1_0000 && bit < 2
    ensures 2 * w + bit == Xor(Xor(2 * p, if 2 * r + bit >= 0x1_0000 then POLY else 0), HashBit(r, bit))
  {
    XorShifted(p, r, bit);
    XorTwice(2 * p, 2 * r + bit, POLY);
    XorZero(2 * p);
    hide Xor;
  }

  lemma BitDivides(w: nat, r: nat, bit: nat)
    requires Remainder(w, r) && bit < 2
    ensures Remainder(2 * w + bit, HashBit(r, bit))
  {
    hide Xor, Product, HashBit;
    var q: nat :| w == Xor(Product(q, 0x1_1021), r);
    var c := if 2 * r + bit >= 0x1_0000 then 1 else 0;
    BitLeaves(w, Product(q, POLY), r, bit);
    ProductShifted(q, c);
    assert 2 * w + bit == Xor(Product(2 * q + c, 0x1_1021), HashBit(r, bit));
  }

  lemma {:induction false} BitsDivide(w: nat, r: nat, u: nat, n: nat)
    requires Remainder(w, r)
    ensures Remainder(Appended(w, u, n), HashBits(r, u, n))
    decreases n
  {
    if n > 0 {
      BitDivides(w, r, u % 2);
      hide Remainder, HashBit;
      BitsDivide(2 * w + u % 2, HashBit(r, u % 2), u / 2, n - 1);
    }
  }

  /** The hash is the remainder of the name's bits, behind those of the attempt, by the polynomial. */
  lemma {:induction false} HashDivides(n: nat, lfn: seq<Unit>)
    requires n < 0x1_0000
    ensures Remainder(Stream(n, lfn), HashName(n, lfn))
    decreases |lfn|
  {
    if lfn == [] {
      XorZero(n);
      XorSwaps(n, 0);
      assert Product(0, POLY) == 0;
    } else {
      var l := lfn[..|lfn| - 1];
      HashDivides(n, l);
      BitsDivide(Stream(n, l), HashName(n, l), lfn[|lfn| - 1], 16);
    }
  }

  lemma {:induction false} AppendedBits(w: nat, u: nat, n: nat, k: nat)
    ensures Bit(Appended(w, u, n), k) == if k < n then Bit(u, n - 1 - k) else Bit(w, k - n)
    decreases n
  {
    if n > 0 {
      AppendedBits(2 * w + u % 2, u / 2, n - 1, k);
    }
  }

  /** From its highest bit on, the stream holds the number, and then the 16 bits of each unit, the lowest first. */
  lemma {:induction false} StreamBits(w: nat, lfn: seq<Unit>)
    ensures forall k: nat :: Bit(Stream(w, lfn), 16 * |lfn| + k) == Bit(w, k)
    ensures forall i, j :: 0 <= i < |lfn| && 0 <= j < 16 ==>
              Bit(Stream(w, lfn), 16 * (|lfn| - i) - 1 - j) == Bit(lfn[i], j)
    decreases |lfn|
  {
    if lfn != [] {
      var l, u := lfn[..|lfn| - 1], lfn[|lfn| - 1];
      StreamBits(w, l);
      forall k: nat
        ensures Bit(Stream(w, lfn), k) == if k < 16 then Bit(u, 15 - k) else Bit(Stream(w, l), k - 16)
      {
        AppendedBits(Stream(w, l), u, 16, k);
      }
      hide Bit, Stream;
    }
  }

  /** The number the n-th attempt puts in the tail: its own, or from the sixth on a hash of the long name. */
  function TailNumber(lfn: seq<Unit>, n: nat): (r: nat)
    requires n < 0x1_0000
    ensures r < 0x1_0000
  {
    if n > 5 then HashName(n, lfn) else n
  }

  /** Bytes of the body that stay before a tail that starts at place i at the latest. */
  function StemLength(src: Field, i: nat): (j: nat)
    requires i <= 8
    ensures j <= i && SPACE !in src[..j] && (j == i || src[j] == SPACE)
  {
    FirstSpace(src, i, 0)
  }

  function FirstSpace(src: Field, i: nat, j: nat): (r: nat)
    requires j <= i <= 8 && SPACE !in src[..j]
    ensures j <= r <= i && SPACE !in src[..r] && (r == i || src[r] == SPACE)
    decreases i - j
  {
    if j < i && src[j] != SPACE then
      assert src[..j + 1] == src[..j] + [src[j]];
      FirstSpace(src, i, j + 1)
    else j
  }

  /** dst is src with its body cut short to make room for the tail, and the tail, padded with spaces. */
  ghost predicate HasTail(src: Field, tail: seq<byte>, dst: Field) {
    && |tail| <= 8
    && var j := StemLength(src, 8 - |tail|);
       && dst[..j] == src[..j] && dst[j..j + |tail|] == tail
       && (forall k :: j + |tail| <= k < 8 ==> dst[k] == SPACE)
       && dst[8..] == src[8..]
  }

  /** dst is the n-th numbered form of src for a long name. */
  ghost predicate Numbered(src: Field, lfn: seq<Unit>, n: nat, dst: Field) {
    n < 0x1_0000 && HasTail(src, NumberTail(TailNumber(lfn, n)), dst)
  }

  lemma {:induction false} DigitsAre(n: nat)
    ensures forall k :: 0 <= k < |HexDigits(n)| ==> 0x30 <= HexDigits(n)[k] < 0x47
    decreases n
  {
    if n > 0 {
      DigitsAre(Higher(n));
    }
  }

  lemma NumberedIsUsable(src: Field, lfn: seq<Unit>, n: nat, dst: Field)
    requires Usable(src) && Numbered(src, lfn, n, dst)
    ensures Usable(dst)
  {
    var number := TailNumber(lfn, n);
    DigitsAre(number);
    hide HexDigits, TailNumber, StemLength;
    var tail := NumberTail(number);
    var j := StemLength(src, 8 - |tail|);
    forall k: nat | k < 11
      ensures dst[k] != 0 && dst[k] != 0x2E && (k == 0 ==> dst[k] != DDEM)
    {
      if k < j {
        assert dst[..j][k] == src[..j][k];
      } else if k < j + |tail| {
        assert dst[j..j + |tail|][k - j] == tail[k - j];
      } else if k >= 8 {
        assert dst[8..][k - 8] == src[8..][k - 8];
      }
    }
  }

  /** There is only one. */
  lemma NumberedIsOne(src: Field, lfn: seq<Unit>, n: nat, x: Field, y: Field)
    requires Numbered(src, lfn, n, x) && Numbered(src, lfn, n, y)
    ensures x == y
  {
    hide StemLength, NumberTail;
    var tail := NumberTail(TailNumber(lfn, n));
    var j := StemLength(src, 8 - |tail|);
    forall k: nat | k < 11
      ensures x[k] == y[k]
    {
      if k < j {
        assert x[..j][k] == y[..j][k];
      } else if k < j + |tail| {
        assert x[j..j + |tail|][k - j] == y[j..j + |tail|][k - j];
      } else if k >= 8 {
        assert x[8..][k - 8] == y[8..][k - 8];
      }
    }
  }

  /** Every name has a first numbered form. */
  lemma HasNumbered(src: Field, lfn: seq<Unit>) returns (dst: Field)
    ensures Numbered(src, lfn, 1, dst)
  {
    var tail := NumberTail(1);
    assert HexDigits(1) == HexDigits(0) + [HexDigit(1)] && HexDigits(0) == [];
    assert TailNumber(lfn, 1) == 1 && |tail| == 2;
    hide HexDigits, HexDigit, TailNumber, StemLength, NumberTail;
    var j := StemLength(src, 6);
    dst := src[..j] + tail + seq(6 - j, _ => SPACE) + src[8..];
    assert dst[..j] == src[..j] && dst[j..j + 2] == tail && dst[8..] == src[8..];
  }

  method HashUnit(was: nat, u: Unit) returns (sreg: nat)
    requires was < 0x1_0000
    ensures sreg == HashBits(was, u, 16)
  {
    hide Xor;
    var wc: nat := u;
    sreg := was;
    var i: nat := 0;
    while i < 16
      invariant i <= 16 && sreg < 0x1_0000 && HashBits(sreg, wc, 16 - i) == HashBits(was, u, 16)
    {
      ghost var next := HashBit(sreg, wc % 2);
      sreg := 2 * sreg + wc % 2;
      wc := wc / 2;
      if sreg >= 0x1_0000 {
        sreg := Xor(sreg, POLY);
      }
      assert sreg == next;
      i := i + 1;
    }
  }

  method Hash(lfn: seq<Unit>, n: nat) returns (number: nat)
    requires n < 0x1_0000
    ensures number == HashName(n, lfn)
  {
    hide HashBits;
    number := n;
    var p: nat := 0;
    while p < |lfn|
      invariant p <= |lfn| && number == HashName(n, lfn[..p])
    {
      number := HashUnit(number, lfn[p]);
      assert lfn[..p + 1][..p] == lfn[..p];
      p := p + 1;
    }
    assert lfn[..p] == lfn;
  }

  lemma MoreDigits(n: nat)
    ensures HexDigits(n) == if n == 0 then [] else HexDigits(Higher(n)) + [HexDigit(n)]
  {
  }

  lemma PutAt(s: seq<byte>, i: nat, x: byte)
    requires i < |s|
    ensures s[i := x][i..] == [x] + s[i + 1..]
  {
  }

  /** The digits of a number, put right to left into a buffer of eight; the tail starts at i. */
  method MakeTail(n: nat) returns (ns: seq<byte>, i: nat)
    requires n < 0x1_0000
    ensures |ns| == 8 && 3 <= i <= 6 && ns[i..] == NumberTail(n)
    ensures forall k :: i <= k < 8 ==> 0x30 <= ns[k] < 0x7F
  {
    hide HexDigit, HexDigits, Higher;
    var number := n;
    ns := seq(8, _ => 0x30);
    i := 7;
    PutAt(ns, i, HexDigit(number));
    MoreDigits(number);
    ns := ns[i := HexDigit(number)];
    i, number := i - 1, Higher(number);
    ZeroDigit();
    while i > 0 && number > 0
      invariant 3 <= i <= 6 && |ns| == 8 && forall k :: i < k < 8 ==> 0x30 <= ns[k] < 0x47
      invariant HexDigits(number) + ns[i + 1..] == if n == 0 then [0x30] else HexDigits(n)
      invariant number < if i == 6 then 0x1000 else if i == 5 then 0x100 else if i == 4 then 0x10 else 1
    {
      PutAt(ns, i, HexDigit(number));
      MoreDigits(number);
      ns := ns[i := HexDigit(number)];
      i, number := i - 1, Higher(number);
    }
    PutAt(ns, i, 0x7E);
    ns := ns[i := 0x7E];
  }

  lemma ZeroDigit()
    ensures HexDigit(0) == 0x30 && HexDigits(0) == []
  {
  }

  /** A short name with a numbered tail. */
  method NumberedName(src: Field, lfn: seq<Unit>, n: nat) returns (dst: Field)
    requires Usable(src) && n < 0x1_0000
    ensures Usable(dst) && Numbered(src, lfn, n, dst)
  {
    hide NumberTail, HashName, HexDigits;
    var number: nat := n;
    if n > 5 {
      number := Hash(lfn, n);
    }
    var ns, i := MakeTail(number);
    ghost var i0 := i;
    dst := src;
    var j: nat := 0;
    while j < i && dst[j] != SPACE
      invariant j <= i && SPACE !in src[..j] && FirstSpace(src, i, j) == StemLength(src, i)
    {
      assert src[..j + 1] == src[..j] + [src[j]];
      j := j + 1;
    }
    ghost var j0 := j;
    assert j0 == StemLength(src, i0);
    while j < 8
      invariant j0 <= j <= 8 && i == (if i0 + (j - j0) < 8 then i0 + (j - j0) else 8) && Usable(dst)
      invariant dst[..j0] == src[..j0] && dst[8..] == src[8..]
      invariant forall k :: j0 <= k < j ==> dst[k] == if i0 + (k - j0) < 8 then ns[i0 + (k - j0)] else SPACE
    {
      dst := dst[j := if i < 8 then ns[i] else SPACE];
      i := if i < 8 then i + 1 else i;
      j := j + 1;
    }
    assert dst[j0..j0 + (8 - i0)] == ns[i0..];
  }

  // ---- Back to text ----------------------------------------------------------------------------

  /** Characters of the short name shown once the first si bytes of the entry are read. */
  function ShownLength(len: nat, di: nat, si: nat): nat
    requires di <= len
  {
    var n := if di == 0 then len else di - 1;
    if si <= 8 || di == 0 then if si < n then si else n
    else di + if si - 8 < len - di then si - 8 else len - di
  }

  ghost predicate ShowsUpTo(lfn: seq<Unit>, n: nat, alt: seq<byte>) {
    |alt| == n <= |lfn| && forall k :: 0 <= k < n ==> alt[k] as nat == Raised(lfn[k])
  }

  lemma NextShown(lfn: seq<Unit>, di: nat, fn: Field, body: bool, ext: bool, si: nat)
    requires IsShortAt(lfn, di, fn, body, ext) && si < 11
    ensures var a, b := ShownLength(|lfn|, di, si), ShownLength(|lfn|, di, si + 1);
            && b <= |lfn| <= 12
            && if fn[si] == SPACE then a == b
               else if si == 8 then
                 b == a + 2 && lfn[a] == 0x2E && fn[si] as nat == Raised(lfn[a + 1]) && ShortChar(lfn[a + 1])
               else b == a + 1 && fn[si] as nat == Raised(lfn[a]) && ShortChar(lfn[a])
  {
    hide BadForShort;
    var n := if di == 0 then |lfn| else di - 1;
    if si < n {
      assert ShortChar(lfn[si]);
    } else if di > 0 && 8 <= si < 8 + |lfn| - di {
      assert ShortChar(lfn[di + si - 8]);
    }
  }

  lemma AllShown(lfn: seq<Unit>, di: nat, fn: Field, body: bool, ext: bool)
    requires IsShortAt(lfn, di, fn, body, ext)
    ensures ShownLength(|lfn|, di, 11) == |lfn| > 0 && ShownLength(|lfn|, di, 0) == 0
  {
  }

  lemma AsciiText(c: nat, n: nat)
    requires c < 0x80 && n >= 1
    ensures WriteChar(c, n) == [c]
  {
  }

  /** A first byte that would mark the entry as deleted is stored as another, and shown as itself. */
  lemma DeletedMark()
    ensures NotDeleted(0xE5) == 0x05 && forall b: byte :: b != 0xE5 ==> NotDeleted(b) == b
  {
  }

  /** The text of the first bytes of a short name: a dot before the extension, no padding. There is none if a byte is
      no character or the text is too long. */
  datatype Alt = Alt(ok: bool, text: seq<byte>)

  /** With one byte more, the si-th. */
  function AltStep(a: seq<byte>, wc: byte, si: nat, uni: byte -> Unit): (r: Alt)
    requires |a| <= SFN_BUF
    ensures |r.text| <= SFN_BUF && (!r.ok ==> r.text == [])
  {
    if wc == SPACE then Alt(true, a)
    else
      var dotted := if si == 9 && |a| < SFN_BUF then a + [0x2E] else a;
      var c := uni(if wc == RDDEM then DDEM else wc);
      var b := WriteChar(c, SFN_BUF - |dotted|);
      if c == 0 || b == [] then Alt(false, []) else Alt(true, dotted + b)
  }

  function AltOf(fn: Field, uni: byte -> Unit, si: nat): (a: Alt)
    requires si <= 11
    ensures |a.text| <= SFN_BUF && (!a.ok ==> a.text == [])
  {
    if si == 0 then Alt(true, [])
    else
      var a := AltOf(fn, uni, si - 1);
      if a.ok then AltStep(a.text, fn[si - 1], si, uni) else a
  }

  /** Once there is none, there is none. */
  lemma AltStops(fn: Field, uni: byte -> Unit)
    ensures forall i: nat, j: nat :: i <= j <= 11 && !AltOf(fn, uni, i).ok ==> !AltOf(fn, uni, j).ok
  {
    forall i: nat, j: nat | i <= j <= 11 && !AltOf(fn, uni, i).ok
      ensures !AltOf(fn, uni, j).ok
    {
      AltStopsAt(fn, uni, i, j);
    }
  }

  lemma {:induction false} AltStopsAt(fn: Field, uni: byte -> Unit, i: nat, j: nat)
    requires i <= j <= 11 && !AltOf(fn, uni, i).ok
    ensures !AltOf(fn, uni, j).ok
    decreases j
  {
    hide WriteChar;
    if i < j {
      AltStopsAt(fn, uni, i, j - 1);
    }
  }

  /** An 8.3 name is shown in capitals. */
  lemma {:induction false} AltShows(fn: Field, uni: byte -> Unit, lfn: seq<Unit>, di: nat, body: bool, ext: bool,
                                    si: nat)
    requires IsShortAt(lfn, di, fn, body, ext) && si <= 11 && forall c: byte :: c < 0x80 ==> uni(c) == c as nat
    ensures di <= |lfn| && AltOf(fn, uni, si).ok && ShowsUpTo(lfn, ShownLength(|lfn|, di, si), AltOf(fn, uni, si).text)
    decreases si
  {
    AllShown(lfn, di, fn, body, ext);
    if si > 0 {
      AltShows(fn, uni, lfn, di, body, ext, si - 1);
      hide AltStep;
      AltShowsOne(fn, uni, lfn, di, body, ext, si - 1, AltOf(fn, uni, si - 1).text);
    }
  }

  lemma AltShowsOne(fn: Field, uni: byte -> Unit, lfn: seq<Unit>, di: nat, body: bool, ext: bool, si: nat,
                    a: seq<byte>)
    requires IsShortAt(lfn, di, fn, body, ext) && si < 11 && forall c: byte :: c < 0x80 ==> uni(c) == c as nat
    requires di <= |lfn| && |a| <= SFN_BUF && ShowsUpTo(lfn, ShownLength(|lfn|, di, si), a)
    ensures var r := AltStep(a, fn[si], si + 1, uni);
            r.ok && ShowsUpTo(lfn, ShownLength(|lfn|, di, si + 1), r.text)
  {
    NextShown(lfn, di, fn, body, ext, si);
    hide IsShortAt, ShownLength, WriteChar, BadForShort;
    if fn[si] != SPACE {
      var dotted := if si + 1 == 9 && |a| < SFN_BUF then a + [0x2E] else a;
      assert |dotted| < SFN_BUF && 0x20 < fn[si] < 0x80;
      AsciiText(fn[si] as nat, SFN_BUF - |dotted|);
    }
  }

  /** The short name in the entry as UTF-8; empty if it has no such form. */
  method AltText(fn: Field, uni: byte -> Unit) returns (alt: seq<byte>)
    ensures alt == AltOf(fn, uni, 11).text && |alt| <= 12
  {
    hide WriteChar;
    AltStops(fn, uni);
    alt := [];
    var si: nat := 0;
    while si < 11
      invariant si <= 11 && |alt| <= SFN_BUF && AltOf(fn, uni, si) == Alt(true, alt)
    {
      var wc := fn[si];
      si := si + 1;
      ghost var step := AltStep(alt, wc, si, uni);
      assert AltOf(fn, uni, si) == step;
      if wc == SPACE {
        continue;
      }
      if wc == RDDEM {
        wc := DDEM;
      }
      if si == 9 && |alt| < SFN_BUF {
        alt := alt + [0x2E];
      }
      var c := uni(wc);
      if c == 0 {
        return [];
      }
      var b := WriteChar(c, SFN_BUF - |alt|);
      if b == [] {
        assert !step.ok;
        return [];
      }
      alt := alt + b;
    }
  }

  lemma CaseRestored(lfn: seq<Unit>, di: nat, fn: Field, body: bool, ext: bool, k: nat)
    requires IsShortAt(lfn, di, fn, body, ext) && k < |lfn|
    ensures lfn[k] < 0x80 && (lfn[k] == 0x2E <==> k + 1 == di) && (Raised(lfn[k]) == 0x2E <==> lfn[k] == 0x2E)
    ensures di == 0 || k + 1 < di ==> lfn[k] == Raised(lfn[k]) + if body && Upper(Raised(lfn[k])) then 0x20 else 0
    ensures 0 < di <= k ==> lfn[k] == Raised(lfn[k]) + if ext && Upper(Raised(lfn[k])) then 0x20 else 0
  {
  }

  /** Character k of a short name in the cases its flags say, which change at the dot. */
  function CasedByte(alt: seq<byte>, k: nat, body: bool, ext: bool): byte
    requires k < |alt|
  {
    if Upper(alt[k] as nat) && (if 0x2E in alt[..k] then ext else body) then alt[k] as int + 0x20 else alt[k]
  }

  /** The short name with the cases its flags say. */
  method CasedText(alt: seq<byte>, body: bool, ext: bool) returns (fname: seq<byte>)
    ensures |fname| == |alt| && forall k :: 0 <= k < |alt| ==> fname[k] == CasedByte(alt, k, body, ext)
  {
    fname := [];
    var inExt := false;
    while |fname| < |alt|
      invariant |fname| <= |alt| && (inExt <==> 0x2E in alt[..|fname|])
      invariant forall k :: 0 <= k < |fname| ==> fname[k] == CasedByte(alt, k, body, ext)
    {
      ghost var k := |fname|;
      assert alt[..k + 1] == alt[..k] + [alt[k]];
      var wc := alt[|fname|];
      if wc == 0x2E {
        inExt := true;
      }
      if Upper(wc as nat) && (if inExt then ext else body) {
        fname := fname + [wc as int + 0x20];
      } else {
        fname := fname + [wc];
      }
    }
  }

  lemma CasesBack(alt: seq<byte>, lfn: seq<Unit>, di: nat, fn: Field, body: bool, ext: bool, k: nat)
    requires IsShortAt(lfn, di, fn, body, ext) && ShowsUpTo(lfn, |lfn|, alt) && k < |lfn|
    ensures CasedByte(alt, k, body, ext) as nat == lfn[k]
  {
    CaseRestored(lfn, di, fn, body, ext, k);
    assert 0x2E in alt[..k] <==> 0 < di <= k by {
      if 0 < di <= k {
        assert alt[..k][di - 1] == 0x2E;
      }
      if 0x2E in alt[..k] {
        var j :| 0 <= j < k && alt[j] == 0x2E;
        CaseRestored(lfn, di, fn, body, ext, j);
      }
    }
  }

  /** The name shown for an entry: its long name if it has a usable one, else its short name in its cases, or "?" if
      that cannot be shown either. */
  method ShownName(long: seq<byte>, fn: Field, uni: byte -> Unit, body: bool, ext: bool) returns (fname: seq<byte>)
    ensures long != [] ==> fname == long
    ensures long == [] && AltOf(fn, uni, 11).text == [] ==> fname == [0x3F]
    ensures long == [] && AltOf(fn, uni, 11).text != [] ==>
              var alt := AltOf(fn, uni, 11).text;
              |fname| == |alt| && forall k :: 0 <= k < |alt| ==> fname[k] == CasedByte(alt, k, body, ext)
  {
    fname := long;
    if long == [] {
      var alt := AltText(fn, uni);
      if alt == [] {
        fname := [0x3F];
      } else {
        fname := CasedText(alt, body, ext);
      }
    }
  }

  /** So an 8.3 name is shown in its own cases. */
  lemma ShownInCases(fn: Field, uni: byte -> Unit, lfn: seq<Unit>, body: bool, ext: bool, fname: seq<byte>)
    requires IsShort(lfn, fn, body, ext) && forall c: byte :: c < 0x80 ==> uni(c) == c as nat
    requires var alt := AltOf(fn, uni, 11).text;
             alt != [] ==> |fname| == |alt| && forall k :: 0 <= k < |alt| ==> fname[k] == CasedByte(alt, k, body, ext)
    ensures AltOf(fn, uni, 11).text != [] && |fname| == |lfn|
    ensures forall k :: 0 <= k < |lfn| ==> fname[k] as nat == lfn[k]
  {
    var di :| 0 <= di <= |lfn| && IsShortAt(lfn, di, fn, body, ext);
    AllShown(lfn, di, fn, body, ext);
    AltShows(fn, uni, lfn, di, body, ext, 11);
    hide IsShortAt, ShownLength, CasedByte, AltOf;
    var alt := AltOf(fn, uni, 11).text;
    forall k | 0 <= k < |lfn|
      ensures CasedByte(alt, k, body, ext) as nat == lfn[k]
    {
      CasesBack(alt, lfn, di, fn, body, ext, k);
    }
  }
}
