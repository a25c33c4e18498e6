/** Bytes, 512-byte sectors and the little-endian loads and stores of the FAT engine. */
module Bytes {

  type byte = x: int | 0 <= x < 256

  type Sector = s: seq<byte> | |s| == 512 witness seq(512, _ => 0)

  function ZeroSector(): (s: Sector) {
    seq(512, _ => 0)
  }

  function LdWord(b: seq<byte>, o: nat): (v: nat)
    requires o + 1 < |b|
    ensures v < 0x1_0000
  {
    b[o] as int + 0x100 * (b[o + 1] as int)
  }

  function LdDword(b: seq<byte>, o: nat): (v: nat)
    requires o + 3 < |b|
    ensures v < 0x1_0000_0000
  {
    LdWord(b, o) + 0x1_0000 * LdWord(b, o + 2)
  }

  function StWord(b: seq<byte>, o: nat, v: nat): (r: seq<byte>)
    requires o + 1 < |b|
    ensures |r| == |b|
    ensures forall i :: 0 <= i < |b| && (i < o || o + 2 <= i) ==> r[i] == b[i]
    ensures LdWord(r, o) == v % 0x1_0000
  {
    b[o := v % 256][o + 1 := v / 256 % 256]
  }

  function StDword(b: seq<byte>, o: nat, v: nat): (r: seq<byte>)
    requires o + 3 < |b|
    ensures |r| == |b|
    ensures forall i :: 0 <= i < |b| && (i < o || o + 4 <= i) ==> r[i] == b[i]
  {
    StWord(StWord(b, o, v % 0x1_0000), o + 2, v / 0x1_0000)
  }

  lemma SplitDword(v: nat)
    ensures v % 0x1_0000 + 0x1_0000 * (v / 0x1_0000 % 0x1_0000) == v % 0x1_0000_0000
  {
  }

  lemma LdStDword(b: seq<byte>, o: nat, v: nat)
    requires o + 3 < |b|
    ensures LdDword(StDword(b, o, v), o) == v % 0x1_0000_0000
  {
    var w := StWord(b, o, v % 0x1_0000);
    var r := StWord(w, o + 2, v / 0x1_0000);
    assert r[o] == w[o] && r[o + 1] == w[o + 1];
    SplitDword(v);
  }

  lemma LdStDwordApart(b: seq<byte>, o: nat, v: nat, p: nat)
    requires o + 3 < |b| && p + 3 < |b| && (o + 4 <= p || p + 4 <= o)
    ensures LdDword(StDword(b, o, v), p) == LdDword(b, p)
  {
    var r := StDword(b, o, v);
    assert r[p] == b[p] && r[p + 1] == b[p + 1] && r[p + 2] == b[p + 2] && r[p + 3] == b[p + 3];
  }

  /** The bytes of a run of sectors, one after the other. */
  function Flatten(ss: seq<Sector>): (b: seq<byte>)
    ensures |b| == 512 * |ss|
  {
    seq(512 * |ss|, i requires 0 <= i < 512 * |ss| => ss[i / 512][i % 512])
  }

  /** Bytes a to b of a run of sectors. */
  function Slice(ss: seq<Sector>, a: nat, b: nat): (r: seq<byte>)
    requires a <= b <= 512 * |ss|
    ensures |r| == b - a
  {
    Flatten(ss)[a..b]
  }

  /** Whole sectors of a run flatten to the bytes at their place. */
  lemma SliceRun(ss: seq<Sector>, part: seq<Sector>, k: nat)
    requires k + |part| <= |ss| && forall i :: 0 <= i < |part| ==> part[i] == ss[k + i]
    ensures Flatten(part) == Slice(ss, 512 * k, 512 * (k + |part|))
  {
    var a, b := Flatten(part), Flatten(ss)[512 * k..512 * (k + |part|)];
    forall j | 0 <= j < |a|
      ensures a[j] == b[j]
    {
      assert (512 * k + j) / 512 == k + j / 512 && (512 * k + j) % 512 == j % 512;
      assert part[j / 512] == ss[k + j / 512];
    }
  }

  /** Bytes inside one sector. */
  lemma SlicePart(ss: seq<Sector>, o: nat, n: nat)
    requires o / 512 < |ss| && o % 512 + n <= 512
    ensures o + n <= 512 * |ss| && Slice(ss, o, o + n) == ss[o / 512][o % 512..o % 512 + n]
  {
    var k, a := o / 512, o % 512;
    var x, y := Flatten(ss)[o..o + n], ss[k][a..a + n];
    forall j | 0 <= j < n
      ensures x[j] == y[j]
    {
      assert (512 * k + a + j) / 512 == k && (512 * k + a + j) % 512 == a + j;
    }
  }

  lemma SliceJoin(ss: seq<Sector>, a: nat, b: nat, c: nat)
    requires a <= b <= c <= 512 * |ss|
    ensures Slice(ss, a, b) + Slice(ss, b, c) == Slice(ss, a, c)
  {
  }

  /** Drive sectors outside [s, s + n) hold the same in both images. */
  ghost predicate SameOutside(view: seq<Sector>, view': seq<Sector>, s: nat, n: nat) {
    |view| == |view'| && forall r :: 0 <= r < |view| && !(s <= r < s + n) ==> view'[r] == view[r]
  }

  /** c with d written over it from position p, growing if d reaches past the end. */
  function Spliced<T>(c: seq<T>, p: nat, d: seq<T>): (r: seq<T>)
    requires p <= |c|
    ensures |r| == if p + |d| < |c| then |c| else p + |d|
  {
    c[..p] + d + if p + |d| < |c| then c[p + |d|..] else []
  }

  /** Writing d and then e right after it writes d + e. */
  lemma SpliceTwice(c: seq<byte>, p: nat, d: seq<byte>, e: seq<byte>)
    requires p <= |c|
    ensures Spliced(Spliced(c, p, d), p + |d|, e) == Spliced(c, p, d + e)
  {
    var x, y := Spliced(Spliced(c, p, d), p + |d|, e), Spliced(c, p, d + e);
    assert forall i :: 0 <= i < |y| ==> x[i] == y[i];
  }

  /** d cut into whole sectors. */
  function Cut(d: seq<byte>, n: nat): (r: seq<Sector>)
    requires 512 * n <= |d|
    ensures |r| == n
  {
    seq(n, i requires 0 <= i < n => d[512 * i..512 * i + 512])
  }

  /** Contents cut at size of a run of sectors. */
  function Upto(ss: seq<Sector>, size: nat): (r: seq<byte>)
    requires size <= 512 * |ss|
    ensures |r| == size
  {
    Flatten(ss)[..size]
  }

  lemma UptoAt(ss: seq<Sector>, size: nat, o: nat)
    requires o < size <= 512 * |ss|
    ensures Upto(ss, size)[o] == ss[o / 512][o % 512]
  {
  }

  /** Patching whole sectors is splicing their bytes. */
  lemma PatchRun(ss: seq<Sector>, size: nat, k: nat, d: seq<byte>, n: nat, size': nat)
    requires 512 * k <= size <= 512 * |ss| && k <= |ss| && 512 * n <= |d|
    requires size' == if size < 512 * (k + n) then 512 * (k + n) else size
    ensures size' <= 512 * |Spliced(ss, k, Cut(d, n))|
    ensures Upto(Spliced(ss, k, Cut(d, n)), size') == Spliced(Upto(ss, size), 512 * k, d[..512 * n])
  {
    var tt := Spliced(ss, k, Cut(d, n));
    var x, y := Upto(tt, size'), Spliced(Upto(ss, size), 512 * k, d[..512 * n]);
    forall o | 0 <= o < size'
      ensures x[o] == y[o]
    {
      UptoAt(tt, size', o);
      var j := o / 512;
      if k <= j < k + n {
        assert 512 * k <= o < 512 * k + 512 * n;
        assert tt[j] == d[512 * (j - k)..512 * (j - k) + 512];
      } else {
        UptoAt(ss, size, o);
      }
    }
  }

  /** A sector with some of its bytes replaced. */
  function Overwritten(b: Sector, off: nat, d: seq<byte>): (r: Sector)
    requires off + |d| <= 512
  {
    b[..off] + d + b[off + |d|..]
  }

  /** Changing bytes inside one sector, perhaps a new last one, is splicing them. */
  lemma PatchPart(ss: seq<Sector>, size: nat, o: nat, b: Sector, d: seq<byte>, size': nat)
    requires o <= size <= 512 * |ss| && o / 512 <= |ss| && o % 512 + |d| <= 512 && |d| > 0
    requires o / 512 < |ss| ==> b == ss[o / 512]
    requires size' == if size < o + |d| then o + |d| else size
    ensures size' <= 512 * |Spliced(ss, o / 512, [Overwritten(b, o % 512, d)])|
    ensures Upto(Spliced(ss, o / 512, [Overwritten(b, o % 512, d)]), size') == Spliced(Upto(ss, size), o, d)
  {
    var k := o / 512;
    var tt := Spliced(ss, k, [Overwritten(b, o % 512, d)]);
    var x, y := Upto(tt, size'), Spliced(Upto(ss, size), o, d);
    forall i | 0 <= i < size'
      ensures x[i] == y[i]
    {
      UptoAt(tt, size', i);
      if i < size {
        UptoAt(ss, size, i);
      }
    }
  }

  /** Whole sectors of len bytes that fit in a cluster after its first csect sectors. */
  function RunLength(csize: nat, csect: nat, len: nat): (cc: nat)
    requires csect < csize && len >= 512
    ensures 0 < cc && csect + cc <= csize && 512 * cc <= len
  {
    if csect + len / 512 > csize then csize - csect else len / 512
  }

  /** Bit k of a number, from the lowest. */
  predicate Bit(b: nat, k: nat) {
    if k == 0 then b % 2 == 1 else Bit(b / 2, k - 1)
  }

  function Pow2(m: nat): (p: nat)
    ensures p > 0
  {
    if m == 0 then 1 else 2 * Pow2(m - 1)
  }

  lemma Doubled(x: nat, h: nat, k: nat)
    ensures Bit(x + 2 * h, k) == if k == 0 then Bit(x, 0) else Bit(x / 2 + h, k - 1)
  {
    assert (x + 2 * h) / 2 == x / 2 + h && (x + 2 * h) % 2 == x % 2;
  }

  lemma TwiceTimes(p: nat, y: nat)
    ensures 2 * p * y == 2 * (p * y)
  {
  }

  /** The bits of a number of m bits with another behind it. */
  lemma {:induction false} JoinedBits(x: nat, y: nat, m: nat, k: nat)
    requires x < Pow2(m)
    ensures Bit(x + Pow2(m) * y, k) == if k < m then Bit(x, k) else Bit(y, k - m)
    decreases m
  {
    if m > 0 {
      var p := Pow2(m - 1);
      TwiceTimes(p, y);
      Doubled(x, p * y, k);
      if k > 0 {
        JoinedBits(x / 2, y, m - 1, k - 1);
      }
      assert Pow2(m) == 2 * p;
      hide Pow2;
      assert x + Pow2(m) * y == x + 2 * (p * y);
    }
  }

  /** To add a power of two where its bit is clear is to set the bit. */
  lemma {:induction false} SetBit(a: nat, m: nat, k: nat)
    requires !Bit(a, m)
    ensures Bit(a + Pow2(m), k) == (k == m || Bit(a, k))
    decreases m
  {
    if m == 0 {
      assert (a + 1) / 2 == a / 2;
    } else {
      var p := Pow2(m - 1);
      assert (a + 2 * p) / 2 == a / 2 + p;
      if k > 0 {
        SetBit(a / 2, m - 1, k - 1);
      }
    }
  }

  /** The bits two numbers differ in. */
  function Xor(a: nat, b: nat): nat
    decreases a + b
  {
    if a == 0 && b == 0 then 0 else 2 * Xor(a / 2, b / 2) + if a % 2 == b % 2 then 0 else 1
  }

  lemma XorHalves(a: nat, b: nat)
    ensures Xor(a, b) / 2 == Xor(a / 2, b / 2) && Xor(a, b) % 2 == if a % 2 == b % 2 then 0 else 1
  {
  }

  lemma {:induction false} XorBits(a: nat, b: nat, k: nat)
    ensures Bit(Xor(a, b), k) == (Bit(a, k) != Bit(b, k))
    decreases k
  {
    XorHalves(a, b);
    hide Xor;
    if k > 0 {
      XorBits(a / 2, b / 2, k - 1);
    }
  }

  lemma {:induction false} XorZero(a: nat)
    ensures Xor(a, 0) == a
  {
    if a > 0 {
      XorZero(a / 2);
    }
  }

  lemma {:induction false} XorSwaps(a: nat, b: nat)
    ensures Xor(a, b) == Xor(b, a)
    decreases a + b
  {
    if a + b > 0 {
      XorSwaps(a / 2, b / 2);
    }
  }

  lemma Halves(x: nat, y: nat)
    ensures x == y <==> x / 2 == y / 2 && x % 2 == y % 2
  {
  }

  /** To change the same bits on both sides changes nothing. */
  lemma {:induction false} XorTwice(a: nat, b: nat, c: nat)
    ensures Xor(a, b) == Xor(Xor(a, c), Xor(b, c))
    decreases a + b + c
  {
    XorHalves(a, b);
    XorHalves(a, c);
    XorHalves(b, c);
    XorHalves(Xor(a, c), Xor(b, c));
    if a + b + c > 0 {
      XorTwice(a / 2, b / 2, c / 2);
    }
    hide Xor;
    Halves(Xor(a, b), Xor(Xor(a, c), Xor(b, c)));
  }

  /** The highest bit goes if both have it. */
  lemma {:induction false} XorBelow(a: nat, b: nat, m: nat)
    requires Pow2(m) <= a < 2 * Pow2(m) && Pow2(m) <= b < 2 * Pow2(m)
    ensures Xor(a, b) < Pow2(m)
    decreases m
  {
    if m > 0 {
      XorBelow(a / 2, b / 2, m - 1);
    }
  }
}
