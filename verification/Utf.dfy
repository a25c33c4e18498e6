/** UTF-8 at the API and UTF-16 inside the engine. */
module Utf {
  import opened Bytes

  // ---- The standards: section 3 of RFC 3629 and section 2 of RFC 2781 ---------------------------

  /** A Unicode scalar value. */
  predicate Scalar(c: nat) {
    c < 0xD800 || 0xE000 <= c < 0x11_0000
  }

  function Utf8(c: nat): (b: seq<byte>)
    requires Scalar(c)
    ensures 1 <= |b| <= 4
  {
    if c < 0x80 then [c]
    else if c < 0x800 then [0xC0 + c / 0x40, 0x80 + c % 0x40]
    else if c < 0x1_0000 then [0xE0 + c / 0x1000, 0x80 + c / 0x40 % 0x40, 0x80 + c % 0x40]
    else [0xF0 + c / 0x4_0000, 0x80 + c / 0x1000 % 0x40, 0x80 + c / 0x40 % 0x40, 0x80 + c % 0x40]
  }

  function High(c: nat): nat
    requires 0x1_0000 <= c < 0x11_0000
  {
    0xD800 + (c - 0x1_0000) / 0x400
  }

  function Low(c: nat): nat
    requires 0x1_0000 <= c < 0x11_0000
  {
    0xDC00 + (c - 0x1_0000) % 0x400
  }

  function Utf16(c: nat): (u: seq<nat>)
    requires Scalar(c)
    ensures 1 <= |u| <= 2 && forall i :: 0 <= i < |u| ==> u[i] < 0x1_0000
  {
    if c < 0x1_0000 then [c] else [High(c), Low(c)]
  }

  /** The euro sign and a smiling face. */
  lemma KnownText()
    ensures Utf8(0x20AC) == [0xE2, 0x82, 0xAC] && Utf16(0x20AC) == [0x20AC]
    ensures Utf8(0x1_F600) == [0xF0, 0x9F, 0x98, 0x80] && Utf16(0x1_F600) == [0xD83D, 0xDE00]
    ensures Utf8(0xE9) == [0xC3, 0xA9]
  {
  }

  predicate Surrogate(u: nat) {
    0xD800 <= u < 0xE000
  }

  // ---- The engine ------------------------------------------------------------------------------

  /** A character as the engine packs it: one UTF-16 unit, or two in one double word. */
  function Packed(c: nat): (p: nat)
    requires Scalar(c)
    ensures p < 0x1_0000_0000
  {
    if c < 0x1_0000 then c else High(c) * 0x1_0000 + Low(c)
  }

  /** Byte i of a string that ends with a zero byte. */
  function At(s: seq<byte>, i: nat): byte {
    if i < |s| then s[i] else 0
  }

  datatype Decoded = Wrong | Got(chr: nat, next: nat)

  /** Trailing bytes n of a sequence, six bits each. */
  function Trail(s: seq<byte>, i: nat, acc: nat, n: nat): (d: Decoded)
    ensures d.Got? ==> d.next == i + n
    decreases n
  {
    if n == 0 then Got(acc, i)
    else
      var b := At(s, i) as nat;
      if b / 0x40 != 2 then Wrong else Trail(s, i + 1, acc * 0x40 + b % 0x40, n - 1)
  }

  function Sequence(s: seq<byte>, i: nat): Decoded {
    var b := At(s, i) as nat;
    if b < 0x80 then Got(b, i + 1)
    else if b / 0x20 == 6 then Trail(s, i + 1, b % 0x20, 1)
    else if b / 0x10 == 14 then Trail(s, i + 1, b % 0x10, 2)
    else if b / 8 == 30 then Trail(s, i + 1, b % 8, 3)
    else Wrong
  }

  /** Read one character of a UTF-8 string, packed. */
  function ReadChar(s: seq<byte>, i: nat): Decoded {
    match Sequence(s, i)
    case Wrong => Wrong
    case Got(c, next) =>
      if next == i + 1 then Got(c, next)
      else if c < 0x80 || Surrogate(c) || c >= 0x11_0000 then Wrong
      else Got(Packed(c), next)
  }

  function Minus32(a: nat, b: nat): nat
    requires a < 0x1_0000_0000 && b < 0x1_0000_0000
  {
    (a + 0x1_0000_0000 - b) % 0x1_0000_0000
  }

  /** Write one packed character as UTF-8 into room for n bytes; empty if it does not fit or is no character. */
  function WriteChar(p: nat, n: nat): (b: seq<byte>)
    requires p < 0x1_0000_0000
    ensures |b| <= n && |b| <= 4
  {
    if p < 0x80 then if n < 1 then [] else [p]
    else if p < 0x800 then if n < 2 then [] else [0xC0 + p / 0x40 % 0x20, 0x80 + p % 0x40]
    else if p < 0x1_0000 then
      if n < 3 || Surrogate(p) then [] else [0xE0 + p / 0x1000 % 0x10, 0x80 + p / 0x40 % 0x40, 0x80 + p % 0x40]
    else if n < 4 then []
    else
      var high := Minus32(p / 0x1_0000 * 0x1_0000, 0xD800_0000) / 0x40;
      var low := Minus32(p % 0x1_0000, 0xDC00);
      if high >= 0x10_0000 || low >= 0x400 then []
      else
        var c := high + low + 0x1_0000;
        [0xF0 + c / 0x4_0000 % 8, 0x80 + c / 0x1000 % 0x40, 0x80 + c / 0x40 % 0x40, 0x80 + c % 0x40]
  }

  /** b lies in s at i. */
  ghost predicate Lies(b: seq<byte>, s: seq<byte>, i: nat) {
    i + |b| <= |s| && forall k :: 0 <= k < |b| ==> s[i + k] == b[k]
  }

  lemma Sixes(c: nat)
    ensures c == c / 0x40 * 0x40 + c % 0x40 && c / 0x1000 == c / 0x40 / 0x40 && c / 0x4_0000 == c / 0x1000 / 0x40
  {
  }

  lemma Reads2(c: nat, s: seq<byte>, i: nat)
    requires 0x80 <= c < 0x800 && Lies(Utf8(c), s, i)
    ensures ReadChar(s, i) == Got(c, i + 2)
  {
    assert s[i + 0] == Utf8(c)[0] && s[i + 1] == Utf8(c)[1];
  }

  lemma Sequence3(c: nat, s: seq<byte>, i: nat)
    requires 0x800 <= c < 0x1_0000 && Scalar(c) && Lies(Utf8(c), s, i)
    ensures Sequence(s, i) == Got(c, i + 3)
  {
    Sixes(c);
    var q := c / 0x40;
    Sixes(q);
    assert s[i + 0] == Utf8(c)[0] && s[i + 1] == Utf8(c)[1] && s[i + 2] == Utf8(c)[2];
    hide Utf8;
    var t := Trail(s, i + 2, q, 1);
    assert t == Got(c, i + 3);
    assert Trail(s, i + 1, q / 0x40, 2) == t;
  }

  lemma Sequence4(c: nat, s: seq<byte>, i: nat)
    requires 0x1_0000 <= c < 0x11_0000 && Lies(Utf8(c), s, i)
    ensures Sequence(s, i) == Got(c, i + 4)
  {
    Sixes(c);
    var q := c / 0x40;
    var r := q / 0x40;
    Sixes(q);
    Sixes(r);
    assert s[i + 0] == Utf8(c)[0] && s[i + 1] == Utf8(c)[1] && s[i + 2] == Utf8(c)[2] && s[i + 3] == Utf8(c)[3];
    hide Utf8;
    var t := Trail(s, i + 3, q, 1);
    assert t == Got(c, i + 4);
    assert Trail(s, i + 2, r, 2) == t;
    assert Trail(s, i + 1, r / 0x40, 3) == t;
  }

  /** Reading the standard encoding of a character gives it back, packed. */
  lemma ReadsUtf8(c: nat, s: seq<byte>, i: nat)
    requires Scalar(c) && Lies(Utf8(c), s, i)
    ensures ReadChar(s, i) == Got(Packed(c), i + |Utf8(c)|)
  {
    if c < 0x80 {
      assert s[i + 0] == Utf8(c)[0];
    } else if c < 0x800 {
      Reads2(c, s, i);
    } else if c < 0x1_0000 {
      Sequence3(c, s, i);
      hide Sequence;
    } else {
      Sequence4(c, s, i);
      hide Sequence;
    }
  }

  lemma SurrogateParts(c: nat)
    requires 0x1_0000 <= c < 0x11_0000
    ensures Packed(c) / 0x1_0000 == High(c) && Packed(c) % 0x1_0000 == Low(c)
    ensures 0xD800 <= High(c) < 0xDC00 <= Low(c) < 0xE000
    ensures (High(c) - 0xD800) * 0x400 + (Low(c) - 0xDC00) == c - 0x1_0000
  {
  }

  lemma Writes4(c: nat)
    requires 0x1_0000 <= c < 0x11_0000
    ensures WriteChar(Packed(c), 4) == Utf8(c)
  {
    SurrogateParts(c);
    var h, l := High(c), Low(c);
    var p := Packed(c);
    hide Packed, High, Low;
    assert Minus32(h * 0x1_0000, 0xD800_0000) == (h - 0xD800) * 0x1_0000;
    assert Minus32(l, 0xDC00) == l - 0xDC00;
    hide Minus32;
    assert (h - 0xD800) * 0x1_0000 / 0x40 == (h - 0xD800) * 0x400;
    assert c / 0x4_0000 < 8;
  }

  /** Writing a packed character gives the standard encoding, if it fits. */
  lemma WritesUtf8(c: nat, n: nat)
    requires Scalar(c)
    ensures WriteChar(Packed(c), n) == if |Utf8(c)| <= n then Utf8(c) else []
  {
    if c >= 0x1_0000 {
      Writes4(c);
      SurrogateParts(c);
      hide High, Low, Minus32;
    }
  }

  lemma PairWritten(hs: nat, wc: nat)
    requires 0xD800 <= hs < 0x1_0000 && wc < 0x1_0000
    requires Minus32(hs * 0x1_0000, 0xD800_0000) / 0x40 < 0x10_0000 && Minus32(wc, 0xDC00) < 0x400
    ensures hs < 0xDC00 <= wc < 0xE000
  {
    assert Minus32(hs * 0x1_0000, 0xD800_0000) == (hs - 0xD800) * 0x1_0000;
    assert (hs - 0xD800) * 0x1_0000 / 0x40 == (hs - 0xD800) * 0x400;
  }

  /** Whatever is written is a character: one unit that is no surrogate, or two that are a pair of them. */
  lemma WrittenIsScalar(hs: nat, wc: nat, n: nat) returns (c: nat)
    requires hs < 0x1_0000 && wc < 0x1_0000 && WriteChar(hs * 0x1_0000 + wc, n) != []
    requires if hs == 0 then !Surrogate(wc) else Surrogate(hs)
    ensures Scalar(c) && Utf16(c) == (if hs == 0 then [wc] else [hs, wc])
    ensures WriteChar(hs * 0x1_0000 + wc, n) == Utf8(c)
  {
    if hs == 0 {
      c := wc;
    } else {
      var p := hs * 0x1_0000 + wc;
      assert p / 0x1_0000 == hs && p % 0x1_0000 == wc;
      assert Minus32(hs * 0x1_0000, 0xD800_0000) / 0x40 < 0x10_0000 && Minus32(wc, 0xDC00) < 0x400;
      PairWritten(hs, wc);
      c := 0x1_0000 + (hs - 0xD800) * 0x400 + (wc - 0xDC00);
      assert High(c) == hs && Low(c) == wc;
    }
    hide WriteChar, Utf8;
    WritesUtf8(c, n);
  }

  /** What is read is a character; what is written back is its shortest form. */
  lemma ReadIsScalar(s: seq<byte>, i: nat) returns (c: nat)
    requires ReadChar(s, i).Got?
    ensures Scalar(c) && ReadChar(s, i).chr == Packed(c)
    ensures i < ReadChar(s, i).next <= i + 4
    ensures WriteChar(ReadChar(s, i).chr, 4) == Utf8(c)
  {
    hide WriteChar, Utf8, Trail;
    c := Sequence(s, i).chr;
    WritesUtf8(c, 4);
  }

  /** The bytes read are the standard encoding if and only if they are as few: the engine also reads longer forms. */
  lemma ShortestForm(s: seq<byte>, i: nat, c: nat)
    requires ReadChar(s, i).Got? && Scalar(c) && ReadChar(s, i).chr == Packed(c) && ReadChar(s, i).next <= |s|
    ensures Lies(Utf8(c), s, i) <==> ReadChar(s, i).next == i + |Utf8(c)|
  {
    if Lies(Utf8(c), s, i) {
      hide ReadChar;
      ReadsUtf8(c, s, i);
    } else if ReadChar(s, i).next == i + |Utf8(c)| {
      PackedOnce(c, Sequence(s, i).chr);
      SameLength(s, i, c);
    }
  }

  /** The bytes at i start no longer form of a character: neither three bytes for one below U+0800 nor four for one
      below U+10000. */
  predicate ShortStart(s: seq<byte>, i: nat) {
    !(At(s, i) == 0xE0 && At(s, i + 1) < 0xA0) && !(At(s, i) == 0xF0 && At(s, i + 1) < 0x90)
  }

  /** Of the bytes the engine reads as a character, those of ShortStart and no others are its standard encoding. */
  lemma StandardOnly(s: seq<byte>, i: nat, c: nat)
    requires i < |s| && ReadChar(s, i).Got? && Scalar(c) && ReadChar(s, i).chr == Packed(c)
    ensures Lies(Utf8(c), s, i) <==> ShortStart(s, i)
  {
    PackedOnce(c, Sequence(s, i).chr);
    ReadInside(s, i);
    ShortestForm(s, i, c);
    LengthRead(s, i);
  }

  /** What is read lies in the string: past its end there is only the terminator. */
  lemma ReadInside(s: seq<byte>, i: nat)
    requires i < |s| && Sequence(s, i).Got?
    ensures Sequence(s, i).next <= |s|
  {
  }

  /** The number of bytes read is that of the standard encoding if and only if they start as one does. */
  lemma LengthRead(s: seq<byte>, i: nat)
    requires i < |s| && ReadChar(s, i).Got? && Scalar(Sequence(s, i).chr)
    ensures Sequence(s, i).next == i + |Utf8(Sequence(s, i).chr)| <==> ShortStart(s, i)
  {
  }

  lemma PackedOnce(c: nat, d: nat)
    requires Scalar(c) && Scalar(d) && Packed(c) == Packed(d)
    ensures c == d
  {
  }

  lemma Join(q: nat, r: nat)
    requires r < 0x40
    ensures (q * 0x40 + r) / 0x40 == q && (q * 0x40 + r) % 0x40 == r
  {
  }

  lemma SameLength(s: seq<byte>, i: nat, c: nat)
    requires Scalar(c) && Sequence(s, i) == Got(c, i + |Utf8(c)|) && i + |Utf8(c)| <= |s|
    ensures Lies(Utf8(c), s, i)
  {
    if c < 0x80 {
    } else if c < 0x800 {
      Join(s[i] as nat % 0x20, s[i + 1] as nat % 0x40);
    } else if c < 0x1_0000 {
      SameLength3(s, i, c);
    } else {
      SameLength4(s, i, c);
    }
  }

  lemma SameLength3(s: seq<byte>, i: nat, c: nat)
    requires 0x800 <= c < 0x1_0000 && Scalar(c) && Sequence(s, i) == Got(c, i + 3) && i + 3 <= |s|
    ensures Lies(Utf8(c), s, i)
  {
    var a, q := s[i] as nat, (s[i] as nat % 0x10) * 0x40 + s[i + 1] as nat % 0x40;
    assert a / 0x10 == 14;
    assert Trail(s, i + 1, a % 0x10, 2) == Trail(s, i + 2, q, 1) == Got(q * 0x40 + s[i + 2] as nat % 0x40, i + 3);
    hide Trail, Sequence;
    Join(a % 0x10, s[i + 1] as nat % 0x40);
    Join(q, s[i + 2] as nat % 0x40);
    Sixes(c);
    assert Utf8(c) == [s[i], s[i + 1], s[i + 2]];
  }

  /** The bytes of a longest sequence. */
  lemma FourBytes(s: seq<byte>, i: nat, c: nat)
    requires 0x1_0000 <= c < 0x11_0000 && Sequence(s, i) == Got(c, i + 4) && i + 4 <= |s|
    ensures s[i] as nat / 8 == 30
    ensures s[i + 1] as nat / 0x40 == 2 && s[i + 2] as nat / 0x40 == 2 && s[i + 3] as nat / 0x40 == 2
    ensures var r := (s[i] as nat % 8) * 0x40 + s[i + 1] as nat % 0x40;
            c == (r * 0x40 + s[i + 2] as nat % 0x40) * 0x40 + s[i + 3] as nat % 0x40
  {
    var a, r := s[i] as nat, (s[i] as nat % 8) * 0x40 + s[i + 1] as nat % 0x40;
    var q := r * 0x40 + s[i + 2] as nat % 0x40;
    assert a / 8 == 30 && Trail(s, i + 1, a % 8, 3) == Trail(s, i + 2, r, 2);
    assert Trail(s, i + 2, r, 2) == Trail(s, i + 3, q, 1) == Got(q * 0x40 + s[i + 3] as nat % 0x40, i + 4);
  }

  lemma SameLength4(s: seq<byte>, i: nat, c: nat)
    requires 0x1_0000 <= c < 0x11_0000 && Sequence(s, i) == Got(c, i + 4) && i + 4 <= |s|
    ensures Lies(Utf8(c), s, i)
  {
    hide Trail, Sequence;
    FourBytes(s, i, c);
    var a, r := s[i] as nat, (s[i] as nat % 8) * 0x40 + s[i + 1] as nat % 0x40;
    var q := r * 0x40 + s[i + 2] as nat % 0x40;
    Join(a % 8, s[i + 1] as nat % 0x40);
    Join(r, s[i + 2] as nat % 0x40);
    Join(q, s[i + 3] as nat % 0x40);
    Sixes(c);
    assert Utf8(c) == [s[i], s[i + 1], s[i + 2], s[i + 3]];
  }

  /** Such a longer form: 0xE0 0x82 0x80 is read as U+0080, which is written 0xC2 0x80. */
  lemma LongerForm()
    ensures ReadChar([0xE0, 0x82, 0x80], 0) == Got(0x80, 3) && Utf8(0x80) == [0xC2, 0x80]
  {
    assert Trail([0xE0, 0x82, 0x80], 2, 2, 1) == Got(0x80, 3);
  }

  // ---- Strings ---------------------------------------------------------------------------------

  predicate AllScalar(cs: seq<nat>) {
    forall i :: 0 <= i < |cs| ==> Scalar(cs[i])
  }

  function Utf8All(cs: seq<nat>): seq<byte>
    requires AllScalar(cs)
  {
    if cs == [] then [] else Utf8All(cs[..|cs| - 1]) + Utf8(cs[|cs| - 1])
  }

  function Utf16All(cs: seq<nat>): (u: seq<nat>)
    requires AllScalar(cs)
    ensures forall i :: 0 <= i < |u| ==> u[i] < 0x1_0000
  {
    if cs == [] then [] else Utf16All(cs[..|cs| - 1]) + Utf16(cs[|cs| - 1])
  }

  lemma Utf16Step(cs: seq<nat>, k: nat)
    requires AllScalar(cs) && k < |cs|
    ensures AllScalar(cs[..k]) && AllScalar(cs[..k + 1])
    ensures Utf16All(cs[..k + 1]) == Utf16All(cs[..k]) + Utf16(cs[k])
    ensures Utf8All(cs[..k + 1]) == Utf8All(cs[..k]) + Utf8(cs[k])
  {
    assert cs[..k + 1][..k] == cs[..k];
  }

  /** The encodings of a prefix are prefixes of the encodings. */
  lemma {:induction false} PrefixEncodings(cs: seq<nat>, k: nat)
    requires AllScalar(cs) && k <= |cs|
    ensures AllScalar(cs[..k]) && Utf16All(cs[..k]) <= Utf16All(cs) && Utf8All(cs[..k]) <= Utf8All(cs)
    decreases |cs|
  {
    if k == |cs| {
      assert cs[..k] == cs;
    } else {
      var r := cs[..|cs| - 1];
      PrefixEncodings(r, k);
      assert r[..k] == cs[..k];
    }
  }

  /** The characters cs are read one after the other from the positions at. */
  ghost predicate ReadAs(s: seq<byte>, at: seq<nat>, cs: seq<nat>) {
    && |at| == |cs| + 1 && AllScalar(cs)
    && forall k :: 0 <= k < |cs| ==> ReadChar(s, at[k]) == Got(Packed(cs[k]), at[k + 1])
  }

  /** A string in standard UTF-8 is read as its characters. */
  lemma {:induction false} StandardReads(s: seq<byte>, i: nat, cs: seq<nat>) returns (at: seq<nat>)
    requires AllScalar(cs) && Lies(Utf8All(cs), s, i)
    ensures ReadAs(s, at, cs) && at[0] == i && at[|cs|] == i + |Utf8All(cs)|
    decreases |cs|
  {
    hide ReadChar, Packed, Utf8;
    if cs == [] {
      at := [i];
    } else {
      var r, c := cs[..|cs| - 1], cs[|cs| - 1];
      var b := Utf8All(r);
      assert Lies(b, s, i) by {
        assert forall k :: 0 <= k < |b| ==> Utf8All(cs)[k] == b[k];
      }
      at := StandardReads(s, i, r);
      assert Lies(Utf8(c), s, i + |b|) by {
        assert forall k :: 0 <= k < |Utf8(c)| ==> Utf8All(cs)[|b| + k] == Utf8(c)[k];
      }
      ReadsUtf8(c, s, i + |b|);
      at := at + [i + |Utf8All(cs)|];
    }
  }
}
