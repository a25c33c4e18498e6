/** The encrypted, shuffled sector store the enclave keeps on its untrusted host. */
module PersistentDisks {
  import opened Bytes
  import opened FileLayout

  /** A block the host stores: sealed under a sector id, or anything else. */
  datatype Block = Sealed(id: nat, plain: Sector) | Raw(bytes: seq<byte>)

  datatype Opened = Plain(data: Sector) | BadTag

  /** Authenticated encryption, the sector id being the initialisation vector. */
  function Encrypt(id: nat, data: Sector): Block {
    Sealed(id, data)
  }

  function Decrypt(id: nat, b: Block): Opened {
    if b.Sealed? && b.id == id then Plain(b.plain) else BadTag
  }

  // ---- Shuffled tables -------------------------------------------------------------------------

  /** t lists 0 to n - 1, each once. */
  ghost predicate Permutation(t: seq<nat>, n: nat) {
    && |t| == n
    && (forall i :: 0 <= i < n ==> t[i] < n)
    && (forall i, j :: 0 <= i < j < n ==> t[i] != t[j])
    && (forall v: nat :: v < n ==> v in t)
  }

  function Swapped(t: seq<nat>, i: nat, j: nat): seq<nat>
    requires i < |t| && j < |t|
  {
    t[i := t[j]][j := t[i]]
  }

  lemma SwapPermutes(t: seq<nat>, n: nat, i: nat, j: nat)
    requires Permutation(t, n) && i < n && j < n
    ensures Permutation(Swapped(t, i, j), n)
  {
    var r := Swapped(t, i, j);
    forall v: nat | v < n
      ensures v in r
    {
      assert v in t;
      var k: nat :| k < n && t[k] == v;
      assert r[if k == i then j else if k == j then i else k] == v;
    }
  }

  /** The numbers 0 to n - 1 after the first k swaps, of place i with the place picked for it. */
  function Shuffled(n: nat, picks: seq<nat>, k: nat): (t: seq<nat>)
    requires k <= |picks| == n && forall i :: 0 <= i < n ==> picks[i] <= i
    ensures |t| == n
  {
    if k == 0 then seq(n, i => i) else Swapped(Shuffled(n, picks, k - 1), k - 1, picks[k - 1])
  }

  /** The numbers 0 to n - 1 in some order: that of the places the random engine picks, which may be any. */
  method ShuffledTable(n: nat) returns (t: seq<nat>, ghost picks: seq<nat>)
    ensures Permutation(t, n)
    ensures |picks| == n && (forall i :: 0 <= i < n ==> picks[i] <= i) && t == Shuffled(n, picks, n)
  {
    t := [];
    var i: nat := 0;
    while i < n
      invariant i <= n && |t| == i && forall k :: 0 <= k < i ==> t[k] == k
    {
      t := t + [i];
      i := i + 1;
    }
    forall v: nat | v < n
      ensures v in t
    {
      assert t[v] == v;
    }
    i := 0;
    picks := seq(n, _ => 0);
    while i < n
      invariant i <= n && Permutation(t, n)
      invariant |picks| == n && (forall k :: 0 <= k < n ==> picks[k] <= k) && t == Shuffled(n, picks, i)
    {
      var j: nat :| j <= i;
      SwapPermutes(t, n, i, j);
      SamePicks(n, picks, picks[i := j], i);
      picks := picks[i := j];
      t := Swapped(t, i, j);
      i := i + 1;
    }
  }

  lemma {:induction false} SamePicks(n: nat, a: seq<nat>, b: seq<nat>, k: nat)
    requires k <= |a| == |b| == n && forall i :: 0 <= i < n ==> a[i] <= i && b[i] <= i
    requires a[..k] == b[..k]
    ensures Shuffled(n, a, k) == Shuffled(n, b, k)
    decreases k
  {
    if k > 0 {
      assert a[..k][k - 1] == b[..k][k - 1];
      assert a[..k - 1] == a[..k][..k - 1] && b[..k - 1] == b[..k][..k - 1];
      SamePicks(n, a, b, k - 1);
    }
  }

  // ---- Sizes -----------------------------------------------------------------------------------

  /** r is the square root of n, rounded up. */
  ghost predicate RootUp(n: nat, r: nat) {
    n <= r * r && (r == 0 || (r - 1) * (r - 1) < n)
  }

  /** The smallest r whose square is at least n. */
  function CeilSqrtFrom(n: nat, r: nat): (q: nat)
    requires r == 0 || (r - 1) * (r - 1) < n
    ensures RootUp(n, q)
    decreases n - r
  {
    if r * r >= n then r else
      assert r < n by { if r >= n && r > 0 { MulMono(1, r, r); } }
      CeilSqrtFrom(n, r + 1)
  }

  function CeilSqrt(n: nat): (q: nat)
    ensures RootUp(n, q)
  {
    CeilSqrtFrom(n, 0)
  }

  /** Entries of the first table: the next multiple of the sector size above the square root. */
  function Size1(n: nat): (s: nat)
    ensures s % 512 == 0 && CeilSqrt(n) < s <= CeilSqrt(n) + 512
  {
    var r := CeilSqrt(n);
    r - r % 512 + 512
  }

  function Size2(n: nat): (s: nat)
    ensures s >= 1
  {
    if n / Size1(n) > 1 then n / Size1(n) else 1
  }

  /** Sectors the two tables cover. */
  function Capacity(n: nat): nat {
    Size1(n) * Size2(n)
  }

  /** On a drive of n sectors exactly the last n mod Size1 are out of the tables' reach, or none on a small one. */
  lemma Coverage(n: nat)
    ensures n < Size1(n) ==> Capacity(n) == Size1(n) > n
    ensures n >= Size1(n) ==> Capacity(n) == n - n % Size1(n)
  {
    hide Size1;
    var s := Size1(n);
    if n >= s {
      DivMono(s, n, s);
      assert n == s * (n / s) + n % s;
      DivIs(s, 1, s);
    } else {
      DivIs(n, 0, s);
    }
  }

  /** The whole drive is covered if and only if it is smaller than the first table or a multiple of it. */
  lemma FullyCovered(n: nat)
    ensures n <= Capacity(n) <==> n < Size1(n) || n % Size1(n) == 0
  {
    hide Size1;
    Coverage(n);
  }

  lemma CeilSqrtIs(n: nat, r: nat)
    requires RootUp(n, r)
    ensures CeilSqrt(n) == r
  {
    var q := CeilSqrt(n);
    if q < r {
      MulMono(q, r - 1, q);
      MulMono(q, r - 1, r - 1);
    } else if q > r {
      MulMono(r, q - 1, r);
      MulMono(r, q - 1, q - 1);
    }
  }

  /** The two table sizes for n sectors: a is the multiple of the sector size next above the rounded-up square root r,
      and b is how many whole tables of that size the sectors fill, but at least one. */
  ghost predicate SizesFor(n: nat, r: nat, a: nat, b: nat) {
    && a % 512 == 0 && r < a <= r + 512
    && if n < a then b == 1 else b * a <= n < (b + 1) * a
  }

  lemma TableSizes(n: nat, r: nat)
    requires RootUp(n, r)
    ensures SizesFor(n, r, Size1(n), Size2(n))
  {
    CeilSqrtIs(n, r);
    hide Size1, RootUp;
    var s := Size1(n);
    assert n == s * (n / s) + n % s;
    if n >= s {
      DivMono(s, n, s);
      DivIs(s, 1, s);
    } else {
      DivIs(n, 0, s);
    }
  }

  /** There is only one such pair. */
  lemma OneSize(n: nat, r: nat, a: nat, b: nat)
    requires RootUp(n, r) && SizesFor(n, r, a, b)
    ensures a == Size1(n) && b == Size2(n)
  {
    TableSizes(n, r);
    hide Size1, Size2, RootUp;
    var c, s := Size2(n), Size1(n);
    assert a == s by {
      assert a == 512 * (a / 512) && s == 512 * (s / 512);
    }
    if n >= s {
      DivIs(n, b, s);
      DivIs(n, c, s);
    }
  }

  /** For a million sectors the tables have 1024 and 976 entries, and the last 576 sectors are out of reach. */
  lemma MillionSectors()
    ensures Size1(1_000_000) == 1024 && Size2(1_000_000) == 976 && Capacity(1_000_000) == 999_424
  {
    OneSize(1_000_000, 1000, 1024, 976);
  }

  /** Of a drive of 1000 sectors only 512 are. */
  lemma HalfCovered()
    ensures Capacity(1000) == 512
  {
    CeilSqrtIs(1000, 32);
    Coverage(1000);
  }

  // ---- The sector permutation ------------------------------------------------------------------

  function MapSector(t1: seq<nat>, t2: seq<nat>, id: nat): nat
    requires |t2| > 0 && id / |t2| < |t1|
  {
    t1[id / |t2|] * |t2| + t2[id % |t2|]
  }

  ghost predicate Tables(t1: seq<nat>, t2: seq<nat>) {
    |t1| > 0 && |t2| > 0 && Permutation(t1, |t1|) && Permutation(t2, |t2|)
  }

  /** The first table's index is in range exactly for the ids below the product of the sizes. */
  lemma InRange(t1: seq<nat>, t2: seq<nat>, id: nat)
    requires |t2| > 0
    ensures id / |t2| < |t1| <==> id < |t1| * |t2|
  {
    var m := |t2|;
    assert id == m * (id / m) + id % m;
    if id / m < |t1| {
      MulMono(id / m + 1, |t1|, m);
    } else {
      MulMono(|t1|, id / m, m);
    }
  }

  lemma Decompose(q: nat, r: nat, m: nat)
    requires r < m
    ensures (q * m + r) / m == q && (q * m + r) % m == r
  {
    DivIs(q * m + r, q, m);
  }

  lemma MapInRange(t1: seq<nat>, t2: seq<nat>, id: nat)
    requires Tables(t1, t2) && id < |t1| * |t2|
    ensures id / |t2| < |t1| && MapSector(t1, t2, id) < |t1| * |t2|
  {
    InRange(t1, t2, id);
    var h := MapSector(t1, t2, id);
    Decompose(t1[id / |t2|], t2[id % |t2|], |t2|);
    InRange(t1, t2, h);
  }

  /** Two sectors never share a host sector. */
  lemma MapInjective(t1: seq<nat>, t2: seq<nat>, a: nat, b: nat)
    requires Tables(t1, t2) && a < |t1| * |t2| && b < |t1| * |t2| && a != b
    ensures a / |t2| < |t1| && b / |t2| < |t1| && MapSector(t1, t2, a) != MapSector(t1, t2, b)
  {
    InRange(t1, t2, a);
    InRange(t1, t2, b);
    hide MapSector;
    Quotients(t1, t2, a);
    Quotients(t1, t2, b);
    Whole(a, |t2|);
    Whole(b, |t2|);
  }

  lemma Quotients(t1: seq<nat>, t2: seq<nat>, a: nat)
    requires Tables(t1, t2) && a / |t2| < |t1|
    ensures a % |t2| < |t2| && MapSector(t1, t2, a) / |t2| == t1[a / |t2|]
            && MapSector(t1, t2, a) % |t2| == t2[a % |t2|]
  {
    Decompose(t1[a / |t2|], t2[a % |t2|], |t2|);
  }

  lemma MapAt(t1: seq<nat>, t2: seq<nat>, b: nat, o: nat)
    requires b < |t1| && o < |t2|
    ensures b * |t2| + o < |t1| * |t2| && (b * |t2| + o) / |t2| < |t1|
    ensures MapSector(t1, t2, b * |t2| + o) == t1[b] * |t2| + t2[o]
  {
    Decompose(b, o, |t2|);
    InRange(t1, t2, b * |t2| + o);
  }

  lemma IndexOf(t: seq<nat>, n: nat, v: nat) returns (i: nat)
    requires Permutation(t, n) && v < n
    ensures i < n == |t| && t[i] == v
  {
    assert v in t;
    i :| 0 <= i < |t| && t[i] == v;
  }

  /** Every host sector in reach is some sector's. */
  lemma MapOnto(t1: seq<nat>, t2: seq<nat>, h: nat) returns (id: nat)
    requires Tables(t1, t2) && h < |t1| * |t2|
    ensures id < |t1| * |t2| && id / |t2| < |t1| && MapSector(t1, t2, id) == h
  {
    hide MapSector, Permutation;
    InRange(t1, t2, h);
    Whole(h, |t2|);
    var b := IndexOf(t1, |t1|, h / |t2|);
    var o := IndexOf(t2, |t2|, h % |t2|);
    MapAt(t1, t2, b, o);
    id := b * |t2| + o;
  }

  lemma Whole(h: nat, m: nat)
    requires m > 0
    ensures h / m * m + h % m == h
  {
  }

  // ---- The store -------------------------------------------------------------------------------

  class PersistentDisk {
    const sectors: nat
    /** No call to the host fails. */
    const reliable: bool
    var table1: seq<nat>
    var table2: seq<nat>
    var pending: Block
    var pendingAt: nat
    /** What the host stores. */
    var host: map<nat, Block>

    ghost predicate Valid()
      reads `table1, `table2
    {
      Tables(table1, table2) && |table1| == Size1(sectors) && |table2| == Size2(sectors)
    }

    /** The sector ids the tables cover. */
    ghost function Reach(): nat
      reads `table1, `table2
    {
      |table1| * |table2|
    }

    function MapId(id: nat): nat
      requires |table2| > 0 && id / |table2| < |table1|
      reads `table1, `table2
    {
      MapSector(table1, table2, id)
    }

    ghost predicate InReach(id: nat)
      reads `table1, `table2
    {
      |table2| > 0 && id / |table2| < |table1|
    }

    /** The host stores sector id's block for this data. */
    ghost predicate Stored(id: nat, data: Sector)
      requires InReach(id)
      reads `table1, `table2, `host
    {
      MapId(id) in host && host[MapId(id)] == Encrypt(MapId(id), data)
    }

    /** The block to be flushed next, if it is this sector's, holds this data. */
    ghost predicate Agrees(id: nat, data: Sector)
      requires InReach(id)
      reads `table1, `table2, `pending, `pendingAt
    {
      pendingAt == MapId(id) ==> pending == Encrypt(MapId(id), data)
    }

    /** The host holds contents c. */
    ghost predicate OnHost(c: map<nat, Sector>)
      reads `table1, `table2, `host
    {
      forall id :: id in c ==> InReach(id) && Stored(id, c[id])
    }

    /** The store holds contents c: the host does, but for the sector of the pending block, whose truth is that
        block. */
    ghost predicate Holds(c: map<nat, Sector>)
      reads `table1, `table2, `host, `pending, `pendingAt
    {
      forall id :: id in c ==> InReach(id) && Agrees(id, c[id]) && (pendingAt != MapId(id) ==> Stored(id, c[id]))
    }

    /** A store over what the host kept from an earlier run, with the tables of that run. */
    constructor (sectors: nat, reliable: bool, table1: seq<nat>, table2: seq<nat>, host: map<nat, Block>)
      requires Tables(table1, table2) && |table1| == Size1(sectors) && |table2| == Size2(sectors)
      ensures Valid() && this.sectors == sectors && this.reliable == reliable && this.host == host
      ensures this.table1 == table1 && this.table2 == table2 && pendingAt == 0 && pending == Raw(seq(528, _ => 0))
    {
      this.sectors, this.reliable, this.table1, this.table2, this.host := sectors, reliable, table1, table2, host;
      pending, pendingAt := Raw(seq(528, _ => 0)), 0;
    }

    /** Start the disk: two tables, shuffled in whatever order the key's seed gives. */
    method DiskStart()
      modifies `table1, `table2
      ensures Valid()
      ensures forall r: nat :: RootUp(sectors, r) ==> SizesFor(sectors, r, |table1|, |table2|)
    {
      ghost var picks;
      table1, picks := ShuffledTable(Size1(sectors));
      table2, picks := ShuffledTable(Size2(sectors));
      forall r: nat | RootUp(sectors, r)
        ensures SizesFor(sectors, r, |table1|, |table2|)
      {
        TableSizes(sectors, r);
      }
    }

    /** Send the pending block to the host; if that fails the host may keep anything there. */
    method Flush() returns (ok: bool)
      modifies `host
      ensures ok ==> host == old(host)[pendingAt := pending]
      ensures forall h :: h != pendingAt ==> (h in host <==> h in old(host)) && (h in host ==> host[h] == old(host)[h])
      ensures reliable ==> ok
    {
      ok := reliable;
      if !ok {
        ok := *;
      }
      if ok {
        host := host[pendingAt := pending];
      } else {
        var junk: Block := *;
        host := host[pendingAt := junk];
      }
    }

    /** A successful flush leaves the contents as they were and has the host hold them. */
    method Settle(ghost c: map<nat, Sector>) returns (ok: bool)
      requires Holds(c)
      modifies `host
      ensures Holds(c) && (ok ==> OnHost(c))
      ensures ok ==> host == old(host)[pendingAt := pending]
      ensures reliable ==> ok
    {
      ok := Flush();
    }

    /** Ask the host for a block. */
    method HostRead(h: nat) returns (ok: bool, b: Block)
      ensures ok && h in host ==> b == host[h]
      ensures reliable && h in host ==> ok
    {
      ok := h in host && reliable;
      b := *;
      if !ok {
        ok := *;
      }
      if ok && h in host {
        b := host[h];
      }
    }

    /** If the host has a block for sector id, it opens to this data. */
    ghost predicate OpensTo(id: nat, data: Sector)
      reads `table1, `table2, `host
    {
      InReach(id) && (MapId(id) in host ==> Decrypt(MapId(id), host[MapId(id)]) == Plain(data))
    }

    /** Read one sector. */
    method ReadOne(id: nat, ghost c: map<nat, Sector>) returns (ok: bool, d: Sector)
      requires Valid() && OnHost(c) && id < Reach()
      ensures ok && id in c ==> d == c[id]
      ensures ok ==> OpensTo(id, d)
      ensures reliable && id in c ==> ok
    {
      hide MapSector, Valid;
      InRange(table1, table2, id);
      var h := MapId(id);
      var b: Block;
      ok, b := HostRead(h);
      d := ZeroSector();
      if ok {
        match Decrypt(h, b) {
          case BadTag => ok := false;
          case Plain(p) => d := p;
        }
      }
    }

    /** Read n sectors. Each one last written as in c comes back so; the flush that goes first changes nothing. */
    method DiskRead(sector: nat, n: nat, ghost c: map<nat, Sector>) returns (ok: bool, data: seq<Sector>)
      requires Valid() && Holds(c) && sector + n <= Reach()
      modifies `host
      ensures Holds(c) && (ok || reliable ==> OnHost(c))
      ensures ok ==> |data| == n && host == old(host)[pendingAt := pending]
      ensures ok ==> forall i :: 0 <= i < n ==> OpensTo(sector + i, data[i])
      ensures ok ==> |data| == n && forall i :: 0 <= i < n && sector + i in c ==> data[i] == c[sector + i]
      ensures reliable && (forall id :: sector <= id < sector + n ==> id in c) ==> ok
    {
      hide Valid, Holds, OnHost, Reach, OpensTo;
      data := [];
      ok := Settle(c);
      if !ok {
        return;
      }
      var i: nat := 0;
      while i < n
        invariant ok && i == |data| <= n && Holds(c) && OnHost(c) && host == old(host)[pendingAt := pending]
        invariant forall j :: 0 <= j < i ==> OpensTo(sector + j, data[j])
        invariant forall j :: 0 <= j < i && sector + j in c ==> data[j] == c[sector + j]
      {
        var d: Sector;
        ok, d := ReadOne(sector + i, c);
        if !ok {
          return;
        }
        data := data + [d];
        i := i + 1;
      }
    }

    /** Write one sector: encrypt it into the pending block and flush that. */
    method WriteOne(id: nat, d: Sector, ghost c: map<nat, Sector>) returns (ok: bool)
      requires Valid() && OnHost(c) && id < Reach()
      modifies `host, `pending, `pendingAt
      ensures Holds(c[id := d]) && (ok ==> OnHost(c[id := d]))
      ensures OnHost(c - {id})
      ensures reliable ==> ok
    {
      InRange(table1, table2, id);
      pendingAt := MapId(id);
      pending := Encrypt(pendingAt, d);
      forall o | o in c && o != id
        ensures InReach(o) && MapId(o) != pendingAt
      {
        InRange(table1, table2, o);
        MapInjective(table1, table2, o, id);
      }
      ok := Flush();
    }

    /** The contents after data is written from a sector on. */
    static function Put(c: map<nat, Sector>, sector: nat, data: seq<Sector>): map<nat, Sector> {
      if data == [] then c else Put(c, sector, data[..|data| - 1])[sector + |data| - 1 := data[|data| - 1]]
    }

    static lemma PutStep(c: map<nat, Sector>, sector: nat, data: seq<Sector>, i: nat)
      requires i < |data|
      ensures Put(c, sector, data[..i + 1]) == Put(c, sector, data[..i])[sector + i := data[i]]
    {
      assert data[..i + 1][..i] == data[..i];
    }

    /** Write sectors. On failure the first k of them are written, the next is pending at best, the others are as
        before. */
    method DiskWrite(sector: nat, data: seq<Sector>, ghost c: map<nat, Sector>) returns (ok: bool, ghost k: nat)
      requires Valid() && OnHost(c) && sector + |data| <= Reach()
      modifies `host, `pending, `pendingAt
      ensures ok ==>
              k == |data| && OnHost(Put(c, sector, data))
              && (data != [] || old(Holds(c)) ==> Holds(Put(c, sector, data)))
      ensures !ok ==>
              k < |data| && Holds(Put(c, sector, data[..k + 1])) && OnHost(Put(c, sector, data[..k]) - {sector + k})
      ensures reliable ==> ok
    {
      hide Valid, Holds, OnHost, Reach, Put;
      k := 0;
      ok := true;
      NothingPut(c, sector, data);
      var i: nat := 0;
      while i < |data|
        invariant ok && i == k <= |data| && OnHost(Put(c, sector, data[..i]))
        invariant i > 0 || old(Holds(c)) ==> Holds(Put(c, sector, data[..i]))
      {
        PutStep(c, sector, data, i);
        ok := WriteOne(sector + i, data[i], Put(c, sector, data[..i]));
        if !ok {
          return;
        }
        i, k := i + 1, k + 1;
      }
      assert data[..i] == data;
    }

    static lemma NothingPut(c: map<nat, Sector>, sector: nat, data: seq<Sector>)
      ensures Put(c, sector, data[..0]) == c
    {
    }

    /** CTRL_SYNC. */
    method Sync(ghost c: map<nat, Sector>) returns (ok: bool)
      requires Holds(c)
      modifies `host
      ensures Holds(c) && (ok ==> OnHost(c))
      ensures ok ==> host == old(host)[pendingAt := pending]
      ensures reliable ==> ok
    {
      ok := Settle(c);
    }

    /** A sync of a store just opened: of the contents from an earlier run exactly those stored in host sector 0 are
        lost. */
    method SyncJustOpened(ghost c: map<nat, Sector>) returns (ok: bool)
      requires Valid() && OnHost(c) && pendingAt == 0 && !pending.Sealed?
      modifies `host
      ensures ok ==> forall id :: id in c ==> (Stored(id, c[id]) <==> MapId(id) != 0)
      ensures ok ==> (OnHost(c) <==> forall id :: id in c ==> MapId(id) != 0)
      ensures reliable ==> ok
    {
      ok := Sync(map[]);
    }

    /** There is one such sector. */
    lemma ZeroIsSomeones() returns (id: nat)
      requires Valid()
      ensures InReach(id) && id < Reach() && MapId(id) == 0
    {
      MulMono(1, |table2|, |table1|);
      id := MapOnto(table1, table2, 0);
    }
  }

  /** Whatever the tables, a sector that maps to host sector 0 is read back in the run that wrote it, and cannot be read
      any more once the store was opened again, synced first or not. */
  method LostAtZero(sectors: nat, table1: seq<nat>, table2: seq<nat>, id: nat, data: Sector,
                    sync: bool)
    returns (written: bool, before: bool, back: seq<Sector>, synced: bool, after: bool)
    requires Tables(table1, table2) && |table1| == Size1(sectors) && |table2| == Size2(sectors)
    requires id / |table2| < |table1| && MapSector(table1, table2, id) == 0
    ensures written && before && back == [data] && synced && !after
  {
    hide PersistentDisk.Holds, MapSector;
    InRange(table1, table2, id);
    var d := new PersistentDisk(sectors, true, table1, table2, map[]);
    ghost var k;
    written, k := d.DiskWrite(id, [data], map[]);
    PutAt(map[], id, [data], id);
    before, back := d.DiskRead(id, 1, PersistentDisk.Put(map[], id, [data]));
    assert back[0] == data;
    var e := new PersistentDisk(sectors, true, table1, table2, d.host);
    NothingHeld(e);
    synced := true;
    if sync {
      synced := e.Sync(map[]);
    }
    var junk;
    after, junk := e.DiskRead(id, 1, map[]);
    assert after ==> e.OpensTo(id + 0, junk[0]);
  }

  lemma NothingHeld(d: PersistentDisk)
    ensures d.Holds(map[]) && d.OnHost(map[])
  {
  }

  // ---- Runs ------------------------------------------------------------------------------------

  datatype Request = ReadReq(sector: nat, n: nat) | WriteReq(sector: nat, data: seq<Sector>) | SyncReq

  datatype Reply = Reply(ok: bool, data: seq<Sector>)

  predicate InDrive(q: Request, reach: nat) {
    match q
    case ReadReq(s, n) => s + n <= reach
    case WriteReq(s, data) => s + |data| <= reach
    case SyncReq => true
  }

  /** The reference store: a map from sector to the last data written to it. */
  function After(c: map<nat, Sector>, q: Request): map<nat, Sector> {
    if q.WriteReq? then PersistentDisk.Put(c, q.sector, q.data) else c
  }

  ghost predicate RightReply(c: map<nat, Sector>, q: Request, r: Reply) {
    match q
    case ReadReq(s, n) =>
      && ((forall id :: s <= id < s + n ==> id in c) ==> r.ok)
      && (r.ok ==> |r.data| == n && forall i :: 0 <= i < n && s + i in c ==> r.data[i] == c[s + i])
    case _ => r.ok
  }

  ghost predicate RightRun(states: seq<map<nat, Sector>>, qs: seq<Request>, rs: seq<Reply>) {
    && |states| == |qs| + 1 && |rs| == |qs|
    && forall i :: 0 <= i < |qs| ==> states[i + 1] == After(states[i], qs[i]) && RightReply(states[i], qs[i], rs[i])
  }

  method Serve(d: PersistentDisk, q: Request, ghost c: map<nat, Sector>) returns (r: Reply)
    requires d.Valid() && d.reliable && InDrive(q, d.Reach()) && d.OnHost(c)
    requires d.Holds(c) || (q.WriteReq? && q.data != [])
    modifies d`host, d`pending, d`pendingAt
    ensures d.OnHost(After(c, q)) && d.Holds(After(c, q)) && RightReply(c, q, r)
  {
    hide PersistentDisk.Valid, PersistentDisk.Holds, PersistentDisk.OnHost, PersistentDisk.Reach, PersistentDisk.Put;
    match q {
      case ReadReq(s, n) =>
        var ok, data := d.DiskRead(s, n, c);
        r := Reply(ok, data);
      case WriteReq(s, data) =>
        var ok, k := d.DiskWrite(s, data, c);
        r := Reply(ok, []);
      case SyncReq =>
        var ok := d.Sync(c);
        r := Reply(ok, []);
    }
  }

  /** Every run of writes, reads and syncs is a run of the reference store, if it starts with a write or
      the pending block agrees with the contents. */
  method Run(d: PersistentDisk, qs: seq<Request>, ghost c: map<nat, Sector>)
    returns (rs: seq<Reply>, ghost states: seq<map<nat, Sector>>)
    requires d.Valid() && d.reliable && d.OnHost(c) && forall i :: 0 <= i < |qs| ==> InDrive(qs[i], d.Reach())
    requires d.Holds(c) || (qs != [] && qs[0].WriteReq? && qs[0].data != [])
    modifies d`host, d`pending, d`pendingAt
    ensures RightRun(states, qs, rs) && states[0] == c && d.OnHost(states[|qs|])
  {
    hide PersistentDisk.Valid, PersistentDisk.Holds, PersistentDisk.OnHost, PersistentDisk.Reach, After, RightReply,
         InDrive;
    rs, states := [], [c];
    var i: nat := 0;
    while i < |qs|
      invariant i <= |qs| && RightRun(states, qs[..i], rs) && states[0] == c && d.OnHost(states[i])
      invariant i > 0 || old(d.Holds(c)) ==> d.Holds(states[i])
    {
      var r := Serve(d, qs[i], states[i]);
      rs, states := rs + [r], states + [After(states[i], qs[i])];
      i := i + 1;
    }
    assert qs[..i] == qs;
  }

  /** The reference store returns for each sector the last block written to it. */
  lemma {:induction false} PutAt(c: map<nat, Sector>, sector: nat, data: seq<Sector>, id: nat)
    ensures sector <= id < sector + |data| ==>
              id in PersistentDisk.Put(c, sector, data) && PersistentDisk.Put(c, sector, data)[id] == data[id - sector]
    ensures !(sector <= id < sector + |data|) ==>
              (id in PersistentDisk.Put(c, sector, data) <==> id in c)
                && (id in c ==> PersistentDisk.Put(c, sector, data)[id] == c[id])
    decreases |data|
  {
    if data != [] {
      PutAt(c, sector, data[..|data| - 1], id);
    }
  }

  /** The request writes this sector. */
  predicate Writes(q: Request, id: nat) {
    q.WriteReq? && q.sector <= id < q.sector + |q.data|
  }

  /** Over a whole run, a covered read returns the block of the latest write to its sector. */
  lemma {:induction false} LastWriteWins(states: seq<map<nat, Sector>>, qs: seq<Request>, rs: seq<Reply>, w: nat,
                                         k: nat, id: nat)
    requires RightRun(states, qs, rs) && w < k < |qs| && Writes(qs[w], id)
    requires forall i :: w < i < k ==> !Writes(qs[i], id)
    ensures id in states[k] && states[k][id] == qs[w].data[id - qs[w].sector]
    decreases k
  {
    var q := qs[k - 1];
    PutAt(states[k - 1], if q.WriteReq? then q.sector else 0, if q.WriteReq? then q.data else [], id);
    if w < k - 1 {
      LastWriteWins(states, qs, rs, w, k - 1, id);
    }
  }
}
