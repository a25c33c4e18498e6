/** Path segments: from the path to the long name, and from the stored long name back to text. */
module NameSegments {
  import opened Bytes
  import opened Utf
  import opened LongNames

  predicate Separator(c: nat) {
    c == 0x2F || c == 0x5C
  }

  /** The segment goes on with this character. */
  predicate InSegment(c: nat) {
    c >= 0x20 && !Separator(c)
  }

  const ILLEGAL: seq<nat> := [0x2A, 0x3A, 0x3C, 0x3E, 0x7C, 0x22, 0x3F, 0x7F]

  predicate Illegal(c: nat): (r: bool)
    ensures r ==> c < 0x80
  {
    c in ILLEGAL
  }

  predicate Legal(c: nat) {
    InSegment(c) && !Illegal(c)
  }

  /** A space or a dot. */
  predicate Blank(c: nat) {
    c == 0x20 || c == 0x2E
  }

  predicate AllLegal(cs: seq<nat>) {
    forall i :: 0 <= i < |cs| ==> Legal(cs[i])
  }

  /** A character that ends the segment is read at position i. */
  ghost predicate EndsAt(path: seq<byte>, i: nat) {
    ReadChar(path, i).Got? && !InSegment(ReadChar(path, i).chr % 0x1_0000)
  }

  /** The segment at position at[0] is the legal characters cs, of at most 255 units. */
  ghost predicate SegmentIs(path: seq<byte>, at: seq<nat>, cs: seq<nat>) {
    && ReadAs(path, at, cs) && AllLegal(cs) && |Utf16All(cs)| <= MAX_LFN && EndsAt(path, at[|cs|])
  }

  lemma LastUnit(c: nat)
    requires Scalar(c)
    ensures Packed(c) % 0x1_0000 == Utf16(c)[|Utf16(c)| - 1] && (c >= 0x1_0000 ==> Packed(c) / 0x1_0000 == Utf16(c)[0])
    ensures (c >= 0x1_0000 <==> Packed(c) >= 0x1_0000)
            && (c >= 0x1_0000 ==> |Utf16(c)| == 2 && Packed(c) % 0x1_0000 >= 0xDC00)
    ensures Legal(Packed(c) % 0x1_0000) <==> Legal(c)
    ensures InSegment(Packed(c) % 0x1_0000) <==> InSegment(c)
    ensures Blank(Packed(c) % 0x1_0000) <==> Blank(c)
    ensures c < 0x1_0000 ==> Packed(c) == c && Utf16(c) == [c]
  {
    if c >= 0x1_0000 {
      SurrogateParts(c);
    }
  }

  lemma ReadingFits(s: seq<byte>, i: nat)
    requires ReadChar(s, i).Got?
    ensures i < ReadChar(s, i).next
    ensures ReadChar(s, i).chr != 0 ==> ReadChar(s, i).next <= |s|
  {
  }

  /** What comes next in a segment known to be want. */
  lemma KnownNext(path: seq<byte>, wat: seq<nat>, want: seq<nat>, k: nat)
    requires SegmentIs(path, wat, want) && k <= |want|
    ensures k == |want| ==> EndsAt(path, wat[k])
    ensures k < |want| ==>
              && ReadChar(path, wat[k]) == Got(Packed(want[k]), wat[k + 1]) && Scalar(want[k]) && Legal(want[k])
              && AllScalar(want[..k]) && |Utf16All(want[..k]) + Utf16(want[k])| <= MAX_LFN
  {
    hide ReadChar, Packed, Utf16, Legal, InSegment;
    if k < |want| {
      Utf16Step(want, k);
      PrefixEncodings(want, k + 1);
    }
  }

  lemma OneMore(cs: seq<nat>, c: nat)
    requires AllScalar(cs) && Scalar(c)
    ensures AllScalar(cs + [c]) && Utf16All(cs + [c]) == Utf16All(cs) + Utf16(c)
  {
    assert (cs + [c])[..|cs|] == cs;
  }

  /** Two packed characters that are the same are the same character. */
  lemma SameCharacter(c: nat, d: nat)
    requires Scalar(c) && Scalar(d)
    ensures Packed(c) == Packed(d) <==> c == d
  {
    if Packed(c) == Packed(d) {
      PackedOnce(c, d);
    }
  }

  /** A segment in standard UTF-8 is read as its characters. */
  lemma StandardSegment(path: seq<byte>, i: nat, cs: seq<nat>) returns (at: seq<nat>)
    requires AllScalar(cs) && AllLegal(cs) && |Utf16All(cs)| <= MAX_LFN && Lies(Utf8All(cs), path, i)
             && EndsAt(path, i + |Utf8All(cs)|)
    ensures SegmentIs(path, at, cs) && at[0] == i
  {
    at := StandardReads(path, i, cs);
  }

  datatype Step = Fail | Stop(stop: nat, next: nat) | More(lfn: seq<Unit>, next: nat)

  /** How one character of a segment is taken up. */
  ghost predicate Taken(path: seq<byte>, p: nat, lfn: seq<Unit>, r: Step, c: nat) {
    && Scalar(c)
    && match r
       case More(longer, next) =>
         && ReadChar(path, p) == Got(Packed(c), next) && p < next <= |path|
         && Legal(c) && longer == lfn + Utf16(c) && |longer| <= MAX_LFN
       case Stop(stop, next) =>
         ReadChar(path, p) == Got(stop, next) && stop < 0x1_0000 && !InSegment(stop)
       case Fail =>
         ReadChar(path, p).Got? ==>
           ReadChar(path, p).chr == Packed(c) && InSegment(c) && (!Legal(c) || |lfn + Utf16(c)| > MAX_LFN)
  }

  /** Read one character of a segment and append it to the name. */
  method NextCharacter(path: seq<byte>, p: nat, lfn: seq<Unit>) returns (r: Step, ghost c: nat)
    requires p <= |path| && |lfn| <= MAX_LFN
    ensures Taken(path, p, lfn, r, c)
  {
    hide ReadChar, Packed, Utf16, Illegal;
    c := 0;
    var d := ReadChar(path, p);
    if d.Wrong? {
      return Fail, c;
    }
    c := ReadIsScalar(path, p);
    LastUnit(c);
    ReadingFits(path, p);
    var units: seq<Unit> := lfn;
    if d.chr >= 0x1_0000 {
      units := units + [d.chr / 0x1_0000];
    }
    var wc: Unit := d.chr % 0x1_0000;
    if wc < 0x20 || Separator(wc) {
      return Stop(wc, d.next), c;
    }
    if wc < 0x80 && Illegal(wc) {
      return Fail, c;
    }
    if |units| >= MAX_LFN {
      return Fail, c;
    }
    r := More(units + [wc], d.next);
  }

  /** A segment known to be want is taken up character by character and ends where it should. */
  lemma KnownStep(path: seq<byte>, wat: seq<nat>, want: seq<nat>, k: nat, r: Step, c: nat)
    requires SegmentIs(path, wat, want) && k <= |want| && AllScalar(want[..k])
             && Taken(path, wat[k], Utf16All(want[..k]), r, c)
    ensures if k == |want| then r.Stop? else r.More? && c == want[k] && r.next == wat[k + 1]
  {
    hide ReadChar, Packed, Utf16, InSegment, Illegal;
    KnownNext(path, wat, want, k);
    LastUnit(c);
    if k < |want| {
      LastUnit(want[k]);
      SameCharacter(c, want[k]);
    }
  }

  lemma Appended(path: seq<byte>, at: seq<nat>, cs: seq<nat>, r: Step, c: nat)
    requires ReadAs(path, at, cs) && AllLegal(cs) && r.More? && Taken(path, at[|cs|], Utf16All(cs), r, c)
    ensures ReadAs(path, at + [r.next], cs + [c]) && AllLegal(cs + [c]) && r.lfn == Utf16All(cs + [c])
            && |r.lfn| <= MAX_LFN
    ensures at[|cs|] < r.next <= |path|
  {
    hide ReadChar, InSegment, Legal, Utf16All, Utf16, Packed, Surrogate;
    OneMore(cs, c);
    assert ReadAs(path, at + [r.next], cs + [c]) by {
      ReadMore(path, at, cs, r.next, c);
    }
    hide ReadAs;
  }

  lemma ReadMore(path: seq<byte>, at: seq<nat>, cs: seq<nat>, next: nat, c: nat)
    requires ReadAs(path, at, cs) && Scalar(c) && ReadChar(path, at[|cs|]) == Got(Packed(c), next)
    ensures ReadAs(path, at + [next], cs + [c])
  {
    hide ReadChar, Packed;
  }

  lemma Ended(path: seq<byte>, at: seq<nat>, cs: seq<nat>, r: Step, c: nat)
    requires ReadAs(path, at, cs) && AllLegal(cs) && |Utf16All(cs)| <= MAX_LFN && r.Stop?
             && Taken(path, at[|cs|], Utf16All(cs), r, c)
    ensures SegmentIs(path, at, cs) && ReadChar(path, at[|cs|]) == Got(r.stop, r.next) && r.stop < 0x1_0000
  {
    hide ReadChar, InSegment, Legal, Utf16All, Utf16, Packed;
  }

  /** Read the characters of a segment into the buffer as UTF-16. It fails only on a malformed character, an
      illegal one, or too long a name. want is what the caller believes is there. */
  method ReadSegment(path: seq<byte>, start: nat, ghost want: seq<nat>, ghost wat: seq<nat>)
    returns (r: Step, lfn: seq<Unit>, ghost cs: seq<nat>, ghost at: seq<nat>)
    requires start <= |path|
    ensures r.Stop? || r.Fail?
    ensures r.Stop? ==> SegmentIs(path, at, cs) && at[0] == start && lfn == Utf16All(cs)
    ensures r.Stop? ==> ReadChar(path, at[|cs|]) == Got(r.stop, r.next) && r.stop < 0x1_0000
    ensures SegmentIs(path, wat, want) && wat[0] == start ==> r.Stop? && cs == want && at[|cs|] == wat[|want|]
  {
    hide ReadChar, Packed, Utf16, InSegment, Legal, EndsAt, Taken;
    lfn, cs, at := [], [], [start];
    ghost var known := SegmentIs(path, wat, want) && wat[0] == start;
    r := More([], start);
    while r.More?
      invariant ReadAs(path, at, cs) && at[0] == start && AllLegal(cs) && lfn == Utf16All(cs) && |lfn| <= MAX_LFN
      invariant r.More? ==> r.next == at[|cs|] <= |path| && r.lfn == lfn
      invariant known ==>
                !r.Fail? && |cs| <= |want| && |wat| == |want| + 1 && cs == want[..|cs|] && at[|cs|] == wat[|cs|]
      invariant r.Stop? ==> exists c :: Taken(path, at[|cs|], lfn, r, c)
      invariant known && r.Stop? ==> |cs| == |want|
      decreases r.More?, if r.More? then |path| - r.next else 0
    {
      ghost var c;
      r, c := NextCharacter(path, r.next, lfn);
      if known {
        KnownStep(path, wat, want, |cs|, r, c);
      }
      if r.More? {
        Appended(path, at, cs, r, c);
        lfn, cs, at := r.lfn, cs + [c], at + [r.next];
      }
    }
    if r.Stop? {
      ghost var c :| Taken(path, at[|cs|], lfn, r, c);
      Ended(path, at, cs, r, c);
    }
    if known {
      assert want[..|want|] == want;
    }
  }

  /** cs[..m] is cs without its trailing spaces and dots. */
  ghost predicate StripsTo(cs: seq<nat>, m: nat) {
    m <= |cs| && (m > 0 ==> !Blank(cs[m - 1])) && forall k :: m <= k < |cs| ==> Blank(cs[k])
  }

  /** How many characters are left without trailing spaces and dots. */
  ghost function StripEnd(cs: seq<nat>): (m: nat)
    ensures StripsTo(cs, m)
    decreases |cs|
  {
    if cs == [] || !Blank(cs[|cs| - 1]) then |cs| else StripEnd(cs[..|cs| - 1])
  }

  lemma StripOnce(cs: seq<nat>, m: nat)
    requires StripsTo(cs, m)
    ensures m == StripEnd(cs)
  {
    var n := StripEnd(cs);
  }

  lemma LastOfName(cs: seq<nat>, m: nat)
    requires AllScalar(cs) && 0 < m <= |cs|
    ensures AllScalar(cs[..m]) && |Utf16All(cs[..m])| > 0
    ensures var u := Utf16All(cs[..m])[|Utf16All(cs[..m])| - 1]; Blank(u) <==> Blank(cs[m - 1])
    ensures Blank(cs[m - 1]) ==> Utf16All(cs[..m])[..|Utf16All(cs[..m])| - 1] == Utf16All(cs[..m - 1])
  {
    hide Utf16, Packed, Utf16All;
    Utf16Step(cs, m - 1);
    LastUnit(cs[m - 1]);
  }

  /** Snip off trailing spaces and dots. */
  method Strip(lfn: seq<Unit>, ghost cs: seq<nat>) returns (r: seq<Unit>)
    requires AllScalar(cs) && lfn == Utf16All(cs)
    ensures r == Utf16All(cs[..StripEnd(cs)])
  {
    hide Utf16All;
    EmptyName();
    var di: nat := |lfn|;
    ghost var m: nat := |cs|;
    assert cs[..m] == cs && lfn[..di] == lfn;
    while di > 0
      invariant di <= |lfn| && m <= |cs| && lfn[..di] == Utf16All(cs[..m]) && forall k :: m <= k < |cs| ==> Blank(cs[k])
      invariant m == 0 ==> di == 0
    {
      LastOfName(cs, m);
      var wc := lfn[di - 1];
      assert wc == lfn[..di][di - 1];
      if wc != 0x20 && wc != 0x2E {
        break;
      }
      assert lfn[..di][..di - 1] == lfn[..di - 1];
      di, m := di - 1, m - 1;
    }
    r := lfn[..di];
    if m > 0 {
      LastOfName(cs, m);
    }
    StripOnce(cs, m);
  }

  lemma EmptyName()
    ensures Utf16All([]) == [] && Utf8All([]) == []
  {
  }

  // ---- Back to text ----------------------------------------------------------------------------

  /** The units of character k of a name in the buffer. */
  lemma UnitsAt(buf: Buffer, cs: seq<nat>, k: nat)
    requires AllScalar(cs) && HoldsFrom(buf, Utf16All(cs), 0) && k <= |cs|
    ensures AllScalar(cs[..k]) && |Utf16All(cs[..k])| <= |Utf16All(cs)|
    ensures k == |cs| ==> cs[..k] == cs
    ensures k < |cs| ==>
              var si := |Utf16All(cs[..k])|;
              && si + |Utf16(cs[k])| <= |Utf16All(cs)| && |Utf16All(cs[..k + 1])| == si + |Utf16(cs[k])|
              && buf[si] == Utf16(cs[k])[0] && (|Utf16(cs[k])| == 2 ==> buf[si + 1] == Utf16(cs[k])[1])
  {
    hide Utf16;
    PrefixEncodings(cs, k);
    if k < |cs| {
      Utf16Step(cs, k);
      PrefixEncodings(cs, k + 1);
      var si := |Utf16All(cs[..k])|;
      assert forall j :: 0 <= j < |Utf16(cs[k])| ==> Utf16All(cs[..k + 1])[si + j] == Utf16(cs[k])[j];
      assert forall j :: 0 <= j < |Utf16All(cs[..k + 1])| ==> Utf16All(cs)[j] == Utf16All(cs[..k + 1])[j] == buf[j];
    }
  }

  const LFN_BUF: nat := 255

  /** The buffer holds the name of characters cs, none of them zero. */
  ghost predicate NameIs(buf: Buffer, cs: seq<nat>) {
    AllScalar(cs) && HoldsFrom(buf, Utf16All(cs), 0) && forall i :: 0 <= i < |cs| ==> cs[i] != 0
  }

  /** Unit si is the first one of character k, or its second one if hs is the first. */
  ghost predicate ReadUpTo(cs: seq<nat>, k: nat, si: nat, hs: nat)
    requires AllScalar(cs)
  {
    && k <= |cs| && AllScalar(cs[..k])
    && if hs == 0 then si == |Utf16All(cs[..k])|
       else k < |cs| && cs[k] >= 0x1_0000 && hs == High(cs[k]) && si == |Utf16All(cs[..k])| + 1
  }

  /** What unit si is. */
  lemma NextUnit(buf: Buffer, cs: seq<nat>, k: nat, si: nat, hs: Unit)
    requires NameIs(buf, cs) && ReadUpTo(cs, k, si, hs)
    ensures si < 256 && (buf[si] == 0 <==> k == |cs|)
    ensures k < |cs| && hs == 0 && Surrogate(buf[si]) ==> ReadUpTo(cs, k, si + 1, buf[si]) && buf[si] != 0
    ensures k < |cs| && !(hs == 0 && Surrogate(buf[si])) ==>
            hs * 0x1_0000 + buf[si] == Packed(cs[k]) && ReadUpTo(cs, k + 1, si + 1, 0)
  {
    hide Utf16All;
    UnitsAt(buf, cs, k);
    if k < |cs| {
      if cs[k] >= 0x1_0000 {
        SurrogateParts(cs[k]);
        hide High, Low;
      }
    }
  }

  /** Character k is appended, unless the text grows too long. */
  lemma NextText(cs: seq<nat>, k: nat, fname: seq<byte>)
    requires AllScalar(cs) && k < |cs| && AllScalar(cs[..k]) && fname == Utf8All(cs[..k]) && |fname| <= LFN_BUF
    ensures AllScalar(cs[..k + 1])
    ensures var b := WriteChar(Packed(cs[k]), LFN_BUF - |fname|);
            if b == [] then |Utf8All(cs)| > LFN_BUF else fname + b == Utf8All(cs[..k + 1])
  {
    hide Utf8, WriteChar, Packed, Utf16, Utf16All;
    WritesUtf8(cs[k], LFN_BUF - |fname|);
    Utf16Step(cs, k);
    PrefixEncodings(cs, k + 1);
  }

  /** The units before si are those of the characters got, but for hs, the first one of a pair. */
  ghost predicate TextRead(buf: Buffer, got: seq<nat>, si: nat, hs: Unit) {
    && AllScalar(got) && (forall i :: 0 <= i < |got| ==> got[i] != 0)
    && var n := |Utf16All(got)|;
      && si == (if hs == 0 then n else n + 1) && si <= 256 && (forall j :: 0 <= j < n ==> buf[j] == Utf16All(got)[j])
      && (hs != 0 ==> Surrogate(hs) && buf[n] == hs)
  }

  lemma TextMore(buf: Buffer, got: seq<nat>, si: nat, hs: Unit, n: nat) returns (more: seq<nat>)
    requires TextRead(buf, got, si, hs) && si < 256 && buf[si] != 0 && !(hs == 0 && Surrogate(buf[si]))
    requires WriteChar(hs * 0x1_0000 + buf[si], n) != []
    ensures TextRead(buf, more, si + 1, 0) && AllScalar(more)
    ensures Utf8All(more) == Utf8All(got) + WriteChar(hs * 0x1_0000 + buf[si], n)
  {
    hide Utf16, Utf8, Utf16All, Utf8All, WriteChar;
    var c := WrittenIsScalar(hs, buf[si], n);
    more := got + [c];
    TextGrown(got, c);
  }

  lemma TextGrown(got: seq<nat>, c: nat)
    requires AllScalar(got) && Scalar(c)
    ensures AllScalar(got + [c]) && (c == 0 ==> Utf16(c) == [0])
    ensures Utf16All(got + [c]) == Utf16All(got) + Utf16(c) && Utf8All(got + [c]) == Utf8All(got) + Utf8(c)
  {
    assert c == 0 ==> Utf16(c) == [0];
    hide Utf16, Utf8;
    assert (got + [c])[..|got|] == got;
  }

  lemma TextEnds(buf: Buffer, got: seq<nat>, si: nat)
    requires TextRead(buf, got, si, 0) && si < 256 && buf[si] == 0
    ensures NameIs(buf, got)
  {
    hide Utf16All;
  }

  /** The long name in the buffer as UTF-8; empty if it is malformed or does not fit. */
  method LongText(buf: Buffer, ghost cs: seq<nat>) returns (fname: seq<byte>, ghost got: seq<nat>)
    requires exists j :: 0 <= j < 256 && buf[j] == 0
    ensures NameIs(buf, cs) ==> fname == if |Utf8All(cs)| <= 255 then Utf8All(cs) else []
    ensures fname != [] ==> NameIs(buf, got) && fname == Utf8All(got)
  {
    hide Utf16, Utf8, WriteChar, Packed, ReadUpTo, NameIs, TextRead, Utf16All;
    ghost var known := NameIs(buf, cs);
    var si: nat, hs: Unit := 0, 0;
    fname, got := [], [];
    ghost var k: nat := 0;
    ghost var end: nat :| end < 256 && buf[end] == 0;
    NoText(buf);
    if known {
      AtStart(buf, cs);
    }
    while buf[si] != 0
      invariant si <= end && |fname| <= LFN_BUF
      invariant TextRead(buf, got, si, hs) && AllScalar(got) && fname == Utf8All(got)
      invariant known ==>
                AllScalar(cs) && ReadUpTo(cs, k, si, hs) && k <= |cs| && AllScalar(cs[..k]) && fname == Utf8All(cs[..k])
      decreases end - si
    {
      if known {
        NextUnit(buf, cs, k, si, hs);
        NextText(cs, k, fname);
      }
      var wc := buf[si];
      si := si + 1;
      if hs == 0 && Surrogate(wc) {
        HalfRead(buf, got, si - 1);
        hs := wc;
        continue;
      }
      var b := WriteChar(hs * 0x1_0000 + wc, LFN_BUF - |fname|);
      if b == [] {
        return [], got;
      }
      got := TextMore(buf, got, si - 1, hs, LFN_BUF - |fname|);
      fname := fname + b;
      hs := 0;
      k := k + 1;
    }
    if known {
      NextUnit(buf, cs, k, si, hs);
      AtEnd(cs, k, si, hs);
    }
    if hs != 0 {
      fname := [];
    } else {
      TextEnds(buf, got, si);
    }
  }

  lemma NoText(buf: Buffer)
    ensures AllScalar([]) && TextRead(buf, [], 0, 0) && Utf8All([]) == []
  {
  }

  lemma HalfRead(buf: Buffer, got: seq<nat>, si: nat)
    requires TextRead(buf, got, si, 0) && si < 256 && Surrogate(buf[si])
    ensures TextRead(buf, got, si + 1, buf[si])
  {
  }

  lemma AtStart(buf: Buffer, cs: seq<nat>)
    requires NameIs(buf, cs)
    ensures AllScalar(cs) && ReadUpTo(cs, 0, 0, 0) && Utf8All(cs[..0]) == []
  {
  }

  lemma AtEnd(cs: seq<nat>, k: nat, si: nat, hs: Unit)
    requires AllScalar(cs) && ReadUpTo(cs, k, si, hs) && k == |cs|
    ensures hs == 0 && cs[..k] == cs
  {
  }
}
