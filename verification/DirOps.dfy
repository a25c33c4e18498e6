/** Directory operations on a mounted volume. */
module DirOps {
  import opened Bytes
  import opened Chains
  import opened DirEntries
  import opened Volumes
  import opened LongNames
  import opened ShortNames
  import opened DirTables
  import opened Directories
  import opened WholeNames

  /** The entries the engine can reach. */
  function RowCount(table: seq<Sector>): (n: nat)
    ensures n <= PER_SECTOR * |table| && n <= MAX_ENTRIES
  {
    if PER_SECTOR * |table| < MAX_ENTRIES then PER_SECTOR * |table| else MAX_ENTRIES
  }

  function Rows(table: seq<Sector>): (es: seq<Entry>)
    ensures |es| == RowCount(table)
    ensures forall i :: 0 <= i < |es| ==> es[i] == EntryAt(table, i)
  {
    seq(RowCount(table), i requires 0 <= i < RowCount(table) => EntryAt(table, i))
  }

  /** Look for a name. */
  method DirFind(d: Dir, q: Query) returns (res: FResult, at: nat, blk: int)
    requires d.Valid()
    modifies d`dptr, d`clust, d`sect, d`chain, d`table, d.fs
    ensures res == FrOk || res == FrNoFile || res == FrDiskErr
    ensures res != FrDiskErr ==> d.Valid() && d.table == old(d.table)
    ensures res == FrOk ==> Find(q, Rows(d.table)) == Found(at, blk) && d.AtEntry(at)
    ensures res == FrNoFile ==> Find(q, Rows(d.table)).NotThere?
    ensures d.fs.reliable ==> res != FrDiskErr
  {
    hide TableOn, EntryAt, Look, Dir.AtEntry, Rows;
    at, blk := 0, NO_BLOCK;
    d.NotEmpty();
    res := d.Sdi(0);
    var s := SCAN_START;
    while res == FrOk
      invariant res == FrOk || res == FrDiskErr
      invariant res == FrOk ==> d.Valid() && d.table == old(d.table) && at < RowCount(d.table) && d.AtEntry(at)
      invariant res == FrOk ==> Find(q, Rows(d.table)) == Search(q, Rows(d.table), at, s)
      invariant d.fs.reliable ==> res == FrOk
      decreases MAX_ENTRIES - at, res == FrOk
    {
      var e: Entry;
      res, e := d.Load(at);
      if res == FrOk {
        var v := LookAt(q, s, e, at);
        match v {
          case Ended => res := FrNoFile; return;
          case Matched(b) => blk := b; return;
          case GoOn(t) => s := t;
        }
        res := d.Next(false, at);
        if res == FrNoFile {
          return;
        }
        if res == FrOk {
          at := at + 1;
        }
      }
    }
  }

  /** fs is es with zero entries added. */
  ghost predicate Grown(es: seq<Entry>, fs: seq<Entry>) {
    es <= fs && forall j :: |es| <= j < |fs| ==> fs[j] == Zeros()
  }

  function Zeros(): Entry {
    seq(32, _ => 0)
  }

  lemma TableGrown(table: seq<Sector>, n: nat)
    ensures Grown(Rows(table), Rows(table + seq(n, _ => ZeroSector())))
  {
    var longer := table + seq(n, _ => ZeroSector());
    forall j | 0 <= j < RowCount(longer)
      ensures Rows(longer)[j] == if j < RowCount(table) then Rows(table)[j] else Zeros()
    {
      if j >= RowCount(table) {
        assert longer[j / PER_SECTOR] == ZeroSector();
      }
    }
  }

  /** Not all of the n entries from q on are free. */
  ghost predicate Blocked(es: seq<Entry>, q: nat, n: nat) {
    exists j :: q <= j < q + n && j < |es| && !Free(es[j])
  }

  /** No row of n free entries starts before p. */
  ghost predicate AllBlocked(es: seq<Entry>, p: nat, n: nat) {
    forall q: nat :: q < p ==> Blocked(es, q, n)
  }

  /** There is no row of n free entries. */
  ghost predicate NoRow(es: seq<Entry>, n: nat) {
    forall q: nat :: q + n <= |es| ==> Blocked(es, q, n)
  }

  /** The table cannot grow: it is the fixed root area, or as long as a table may be, or the volume is full. */
  ghost predicate CannotGrow(d: Dir)
    requires d.Valid()
    reads d, d.fs
  {
    d.top == 0 || RowCount(d.table) == MAX_ENTRIES || FreeSet(d.fs.Fat()) == {}
  }

  /** From p on there are at - p free entries, behind an entry in use, and no row of n starts before. */
  ghost predicate FirstRow(es: seq<Entry>, p: nat, at: nat, n: nat) {
    && p <= at <= |es| && (forall j :: p <= j < at ==> Free(es[j])) && (p > 0 ==> !Free(es[p - 1]))
    && AllBlocked(es, p, n)
  }

  lemma NoRowYet(es: seq<Entry>, n: nat)
    ensures FirstRow(es, 0, 0, n)
  {
  }

  lemma LongerRow(es: seq<Entry>, p: nat, at: nat, n: nat)
    requires FirstRow(es, p, at, n) && at < |es| && Free(es[at])
    ensures FirstRow(es, p, at + 1, n)
  {
    hide AllBlocked;
  }

  lemma NextRow(es: seq<Entry>, p: nat, at: nat, n: nat)
    requires FirstRow(es, p, at, n) && at < p + n && at < |es| && !Free(es[at])
    ensures FirstRow(es, at + 1, at + 1, n)
  {
  }

  lemma SameRow(es: seq<Entry>, fs: seq<Entry>, p: nat, at: nat, n: nat)
    requires FirstRow(es, p, at, n) && es <= fs
    ensures FirstRow(fs, p, at, n)
  {
    forall q: nat | q < p
      ensures Blocked(fs, q, n)
    {
      assert Blocked(es, q, n);
      var j :| q <= j < q + n && j < |es| && !Free(es[j]);
      assert fs[j] == es[j];
    }
  }

  lemma NoRowLeft(es: seq<Entry>, p: nat, at: nat, n: nat)
    requires FirstRow(es, p, at, n) && |es| < p + n
    ensures NoRow(es, n)
  {
  }

  /** A table got longer, in steps of a cluster, only as far as its first m entries need. */
  ghost predicate NoLonger(was: int, now: int, step: int, m: int) {
    now == was || PER_SECTOR * (now - step) < m
  }

  /** Move on to the next entry, stretching the table if need be. */
  method Further(d: Dir, ghost at: nat) returns (res: FResult)
    requires d.Valid() && d.AtEntry(at) && at < RowCount(d.table)
    modifies d`dptr, d`clust, d`sect, d`chain, d`table, d.fs
    ensures res == FrOk || res == FrNoFile || res == FrDenied || res == FrDiskErr
    ensures res == FrOk ==>
              && d.Valid() && at + 1 < RowCount(d.table) && d.AtEntry(at + 1)
              && Grown(Rows(old(d.table)), Rows(d.table))
              && NoLonger(|old(d.table)|, |d.table|, d.fs.g.csize, at + 2)
    ensures res == FrNoFile || res == FrDenied ==>
              d.Valid() && d.table == old(d.table) && at + 1 >= RowCount(d.table) && CannotGrow(d)
    ensures d.fs.reliable ==> res != FrDiskErr
  {
    hide TableOn, EntryAt, Dir.AtEntry, Grown, FreeSet, Rows;
    GrownNot(Rows(d.table));
    TableGrown(d.table, d.fs.g.csize);
    res := d.Next(true, at);
  }

  /** Reserve n entries in a row: the first such place, behind an entry in use or at the start. Refused only if there
      is none and the table cannot grow. */
  method DirAlloc(d: Dir, n: nat) returns (res: FResult, ghost p: nat)
    requires d.Valid() && n > 0
    modifies d`dptr, d`clust, d`sect, d`chain, d`table, d.fs
    ensures res == FrOk || res == FrDenied || res == FrDiskErr
    ensures res != FrDiskErr ==> d.Valid() && Grown(Rows(old(d.table)), Rows(d.table))
    ensures res == FrOk ==> FirstRow(Rows(d.table), p, p + n, n) && d.AtEntry(p + n - 1)
    ensures res == FrOk ==> NoLonger(|old(d.table)|, |d.table|, d.fs.g.csize, p + n)
    ensures res == FrDenied ==> NoRow(Rows(d.table), n) && CannotGrow(d)
    ensures d.fs.reliable ==> res != FrDiskErr
  {
    hide TableOn, EntryAt, Dir.AtEntry, Grown, CannotGrow, NoRow, FirstRow, Rows;
    d.NotEmpty();
    res := d.Sdi(0);
    ghost var at: nat := 0;
    var run: nat := 0;
    p := 0;
    GrownNot(Rows(d.table));
    NoRowYet(Rows(d.table), n);
    while res == FrOk
      invariant res == FrOk || res == FrNoFile || res == FrDenied || res == FrDiskErr
      invariant res != FrDiskErr ==> d.Valid() && Grown(Rows(old(d.table)), Rows(d.table))
      invariant res == FrOk ==> at < RowCount(d.table) && d.AtEntry(at) && p + run == at && run < n
      invariant res == FrOk ==> FirstRow(Rows(d.table), p, at, n)
      invariant res == FrOk ==> NoLonger(|old(d.table)|, |d.table|, d.fs.g.csize, at + 1)
      invariant res == FrNoFile || res == FrDenied ==> NoRow(Rows(d.table), n) && CannotGrow(d)
      invariant d.fs.reliable ==> res != FrDiskErr
      decreases MAX_ENTRIES - at, res == FrOk
    {
      var e: Entry;
      res, e := d.Load(at);
      if res == FrOk {
        if Free(e) {
          run := run + 1;
          LongerRow(Rows(d.table), p, at, n);
          if run == n {
            return;
          }
        } else {
          run := 0;
          NextRow(Rows(d.table), p, at, n);
          p := at + 1;
        }
        ghost var es := Rows(d.table);
        res := Further(d, at);
        if res == FrOk {
          GrownTwice(Rows(old(d.table)), es, Rows(d.table));
          SameRow(es, Rows(d.table), p, at + 1, n);
          at := at + 1;
        } else if res != FrDiskErr {
          NoRowLeft(Rows(d.table), p, at + 1, n);
        }
      }
    }
    if res == FrNoFile {
      res := FrDenied;
    }
  }

  lemma GrownNot(es: seq<Entry>)
    ensures Grown(es, es)
  {
  }

  lemma GrownTwice(es: seq<Entry>, fs: seq<Entry>, gs: seq<Entry>)
    requires Grown(es, fs) && Grown(fs, gs)
    ensures Grown(es, gs) && fs <= gs
  {
  }

  // ---- Registering -----------------------------------------------------------------------------

  /** A short name of the directory equals fn. */
  ghost predicate Taken(buf: Buffer, up: Unit -> Unit, fn: Field, es: seq<Entry>) {
    Find(Query(buf, fn, up, true, false), es).Found?
  }

  /** So it is with the numbered forms of fn0 before the n-th. */
  ghost predicate AllTaken(buf: Buffer, up: Unit -> Unit, fn0: Field, lfn: seq<Unit>, n: nat, es: seq<Entry>) {
    forall k: nat, fn: Field :: 1 <= k < n && Numbered(fn0, lfn, k, fn) ==> Taken(buf, up, fn, es)
  }

  /** fn is the first numbered form of fn0 that is not. */
  ghost predicate FirstNumbered(buf: Buffer, up: Unit -> Unit, fn0: Field, lfn: seq<Unit>, fn: Field, es: seq<Entry>) {
    !Taken(buf, up, fn, es)
    && exists k: nat :: 1 <= k < 100 && Numbered(fn0, lfn, k, fn) && AllTaken(buf, up, fn0, lfn, k, es)
  }

  /** A short name for a new entry: the given one, or the first numbered form of it that no short name in the directory
      equals. Refused only if 99 of them are taken. */
  method ChooseShort(d: Dir, buf: Buffer, up: Unit -> Unit, lfn: seq<Unit>, fn0: Field, loss: bool)
    returns (res: FResult, fn: Field)
    requires d.Valid() && Usable(fn0)
    modifies d`dptr, d`clust, d`sect, d`chain, d`table, d.fs
    ensures res == FrOk || res == FrDenied || res == FrDiskErr
    ensures res != FrDiskErr ==> d.Valid() && d.table == old(d.table)
    ensures res == FrOk ==> Usable(fn) && (!loss ==> fn == fn0)
    ensures res == FrOk && loss ==> FirstNumbered(buf, up, fn0, lfn, fn, Rows(d.table))
    ensures res == FrDenied ==> loss && AllTaken(buf, up, fn0, lfn, 100, Rows(d.table))
    ensures d.fs.reliable ==> res != FrDiskErr
  {
    hide TableOn, Find, Rows, Numbered;
    fn := fn0;
    res := FrOk;
    if loss {
      var n: nat := 1;
      while n < 100
        invariant 1 <= n <= 100 && d.Valid() && d.table == old(d.table)
        invariant AllTaken(buf, up, fn0, lfn, n, Rows(d.table))
        invariant d.fs.reliable ==> res != FrDiskErr
      {
        fn := NumberedName(fn0, lfn, n);
        var at: nat, blk: int;
        res, at, blk := DirFind(d, Query(buf, fn, up, true, false));
        if res != FrOk {
          break;
        }
        NextTaken(buf, up, fn0, lfn, n, fn, Rows(d.table));
        n := n + 1;
      }
      if n == 100 {
        return FrDenied, fn;
      }
      if res == FrNoFile {
        res := FrOk;
      }
    }
  }

  lemma NextTaken(buf: Buffer, up: Unit -> Unit, fn0: Field, lfn: seq<Unit>, n: nat, fn: Field, es: seq<Entry>)
    requires AllTaken(buf, up, fn0, lfn, n, es) && Numbered(fn0, lfn, n, fn) && Taken(buf, up, fn, es)
    ensures AllTaken(buf, up, fn0, lfn, n + 1, es)
  {
    hide Taken, Numbered;
    forall k: nat, x: Field | 1 <= k < n + 1 && Numbered(fn0, lfn, k, x)
      ensures Taken(buf, up, x, es)
    {
      if k == n {
        NumberedIsOne(fn0, lfn, n, x, fn);
      }
    }
  }

  function ShortEntry(fn: Field, body: bool, ext: bool): (e: Entry)
    ensures e[..11] == fn && e[DIR_ATTR] == 0
  {
    fn + [0, (if body then 0x08 else 0) + (if ext then 0x10 else 0)] + seq(19, _ => 0)
  }

  /** Outside [p, m) the entries are as they were. */
  ghost predicate SameBut(es: seq<Entry>, fs: seq<Entry>, p: nat, m: nat) {
    |fs| == |es| && forall j :: 0 <= j < |es| && !(p <= j < m) ==> fs[j] == es[j]
  }

  /** Change the entry under the cursor. */
  method Put(d: Dir, e: Entry, ghost i: nat)
    requires d.Valid() && d.AtEntry(i) && i < RowCount(d.table) && d.fs.winsect == d.sect
             && d.fs.win == d.table[i / PER_SECTOR]
    modifies d`table, d.fs`win, d.fs`wflag, d.fs`view
    ensures d.Valid() && d.AtEntry(i) && Rows(d.table) == Rows(old(d.table))[i := e]
            && RowCount(d.table) == RowCount(old(d.table)) && |d.table| == |old(d.table)|
  {
    hide TableOn, EntryAt, Dir.AtEntry;
    d.Store(e, i);
    assert forall j :: 0 <= j < RowCount(d.table) ==> Rows(d.table)[j] == if j == i then e else Rows(old(d.table))[j];
  }

  /** Write the parts of a long name, the last one first, from entry p on. */
  method WriteLong(d: Dir, lfn: seq<Unit>, sum: byte, p: nat) returns (res: FResult)
    requires d.Valid() && Name(lfn) && lfn != [] && p + Parts(lfn) < RowCount(d.table)
    modifies d`dptr, d`clust, d`sect, d`chain, d`table, d.fs
    ensures res == FrOk || res == FrDiskErr
    ensures res == FrOk ==>
            d.Valid() && SameBut(Rows(old(d.table)), Rows(d.table), p, p + Parts(lfn)) && d.AtEntry(p + Parts(lfn))
    ensures res == FrOk ==> forall i: nat :: p <= i < p + Parts(lfn) ==>
            IsPart(Rows(d.table)[i], lfn, p + Parts(lfn) - i, sum)
    ensures res == FrOk ==> |d.table| == |old(d.table)|
    ensures d.fs.reliable ==> res == FrOk
  {
    hide TableOn, EntryAt, Dir.AtEntry, IsPart, Rows;
    var k: nat := Parts(lfn);
    ghost var m := p + k;
    res := d.Sdi(p);
    if res != FrOk {
      return FrDiskErr;
    }
    while k > 0
      invariant k <= Parts(lfn) && res == FrOk && d.Valid() && d.AtEntry(m - k)
      invariant RowCount(d.table) == RowCount(old(d.table)) && SameBut(Rows(old(d.table)), Rows(d.table), p, m)
      invariant |d.table| == |old(d.table)|
      invariant forall i: nat :: p <= i < m - k ==> IsPart(Rows(d.table)[i], lfn, m - i, sum)
    {
      var e: Entry;
      res, e := d.Load(m - k);
      if res != FrOk {
        return;
      }
      e := PutLfn(lfn, e, k, sum);
      Put(d, e, m - k);
      res := d.Next(false, m - k);
      if res != FrOk {
        return FrDiskErr;
      }
      k := k - 1;
    }
  }

  /** Write the parts of the long name, if any, and the short name into the reserved entries, the cursor
      being on the last of them. */
  method WriteEntries(d: Dir, lfn: seq<Unit>, fn: Field, cf: Flags, parts: nat, ghost p: nat) returns (res: FResult)
    requires d.Valid() && Usable(fn) && Name(lfn) && lfn != [] && (parts == 0 || parts == Parts(lfn))
             && p + parts < RowCount(d.table)
    requires forall j :: p <= j < p + parts + 1 ==> Free(Rows(d.table)[j])
    requires (p > 0 ==> !Free(Rows(d.table)[p - 1])) && d.AtEntry(p + parts)
    modifies d`dptr, d`clust, d`sect, d`chain, d`table, d.fs
    ensures res == FrOk || res == FrDiskErr
    ensures res == FrOk ==>
            d.Valid() && Registered(Rows(old(d.table)), Rows(d.table), p, parts + 1, lfn, fn) && d.AtEntry(p + parts)
    ensures res == FrOk ==>
            RowCount(d.table) == RowCount(old(d.table)) && Rows(d.table)[p + parts] == ShortEntry(fn, cf.body, cf.ext)
    ensures res == FrOk ==> |d.table| == |old(d.table)|
    ensures d.fs.reliable ==> res == FrOk
  {
    hide TableOn, EntryAt, Dir.AtEntry, IsPart, Rows, Usable, Name;
    DptrAt(d, p + parts);
    if parts > 0 {
      var sum := SumSfn(fn);
      res := WriteLong(d, lfn, sum, d.dptr / 32 - parts);
      if res != FrOk {
        return;
      }
    }
    var e: Entry;
    res, e := d.Load(p + parts);
    if res == FrOk {
      Put(d, ShortEntry(fn, cf.body, cf.ext), p + parts);
      IsRegistered(Rows(old(d.table)), Rows(d.table), p, parts, lfn, fn, cf);
    }
  }

  /** Why a name cannot be registered: all its numbered short forms are taken, or there is no room. */
  ghost predicate Refused(d: Dir, buf: Buffer, up: Unit -> Unit, lfn: seq<Unit>, fn0: Field, cf: Flags)
    requires d.Valid()
    reads d, d.fs
  {
    || (cf.loss && AllTaken(buf, up, fn0, lfn, 100, Rows(d.table)))
    || (NoRow(Rows(d.table), EntriesFor(lfn, cf)) && CannotGrow(d))
  }

  /** Entries a new name takes. */
  function EntriesFor(lfn: seq<Unit>, cf: Flags): nat {
    if cf.lfn then Parts(lfn) + 1 else 1
  }

  /** Register a name: the long one in the buffer, the short one and what its flags ask for. The new entries
      take the place of free ones; nothing else changes. */
  method DirRegister(d: Dir, buf: Buffer, up: Unit -> Unit, lfn: seq<Unit>, fn0: Field, cf: Flags)
    returns (res: FResult, fn: Field, ghost before: seq<Entry>, ghost p: nat, ghost n: nat)
    requires d.Valid() && Usable(fn0) && Name(lfn) && lfn != [] && (cf.loss ==> cf.lfn)
    modifies d`dptr, d`clust, d`sect, d`chain, d`table, d.fs
    ensures res == FrOk || res == FrDenied || res == FrDiskErr
    ensures res == FrDenied ==>
            d.Valid() && Grown(Rows(old(d.table)), Rows(d.table)) && Refused(d, buf, up, lfn, fn0, cf)
    ensures res == FrOk ==>
            d.Valid() && Grown(Rows(old(d.table)), before) && Registered(before, Rows(d.table), p, n, lfn, fn)
    ensures res == FrOk ==> n == EntriesFor(lfn, cf) && AllBlocked(before, p, n)
    ensures res == FrOk ==> NoLonger(|old(d.table)|, |d.table|, d.fs.g.csize, p + n)
    ensures res == FrOk && cf.loss ==> FirstNumbered(buf, up, fn0, lfn, fn, Rows(old(d.table)))
    ensures res == FrOk ==> (!cf.loss ==> fn == fn0) && Usable(fn) && d.AtEntry(p + n - 1)
    ensures res == FrOk ==> p + n <= RowCount(d.table) && Rows(d.table)[p + n - 1] == ShortEntry(fn, cf.body, cf.ext)
    ensures d.fs.reliable ==> res != FrDiskErr
  {
    hide TableOn, EntryAt, Dir.AtEntry, IsPart, Rows, Grown, Usable, Registered, FirstNumbered, AllBlocked, AllTaken,
         NoRow, CannotGrow;
    before, p, n := [], 0, 0;
    res, fn := ChooseShort(d, buf, up, lfn, fn0, cf.loss);
    if res != FrOk {
      GrownNot(Rows(d.table));
      return;
    }
    n := EntriesFor(lfn, cf);
    var parts := if cf.lfn then Parts(lfn) else 0;
    res, p := DirAlloc(d, parts + 1);
    if res != FrOk {
      return;
    }
    before := Rows(d.table);
    res := WriteEntries(d, lfn, fn, cf, parts, p);
  }

  lemma DptrAt(d: Dir, i: nat)
    requires d.AtEntry(i)
    ensures d.dptr == 32 * i
  {
  }

  lemma IsRegistered(es: seq<Entry>, fs: seq<Entry>, p: nat, parts: nat, lfn: seq<Unit>, fn: Field, cf: Flags)
    requires Usable(fn) && Name(lfn) && (parts == 0 || parts == Parts(lfn)) && SameBut(es, fs, p, p + parts + 1)
             && p + parts < |fs|
    requires forall i: nat :: p <= i < p + parts ==> IsPart(fs[i], lfn, p + parts - i, SumOf(fn))
    requires fs[p + parts] == ShortEntry(fn, cf.body, cf.ext)
    requires (forall j :: p <= j < p + parts + 1 ==> Free(es[j])) && (p > 0 ==> !Free(es[p - 1]))
    ensures Registered(es, fs, p, parts + 1, lfn, fn)
  {
    hide IsPart, ShortEntry;
  }

  // ---- Removing --------------------------------------------------------------------------------

  /** Mark the entries of a name deleted, from the start of its long name, if it has one, to its short name. */
  method DirRemove(d: Dir, blk: int, ghost at: nat) returns (res: FResult)
    requires d.Valid() && d.AtEntry(at) && at < RowCount(d.table) && (blk == NO_BLOCK || 0 <= blk <= at)
    modifies d`dptr, d`clust, d`sect, d`chain, d`table, d.fs
    ensures res == FrOk || res == FrDiskErr
    ensures res == FrOk ==>
              && d.Valid()
              && var p := if blk == NO_BLOCK then at else blk; Removed(Rows(old(d.table)), Rows(d.table), p, at - p + 1)
    ensures d.fs.reliable ==> res == FrOk
  {
    hide TableOn, EntryAt, Dir.AtEntry, Rows;
    DptrAt(d, at);
    var last := d.dptr;
    ghost var p: nat, i: nat := if blk == NO_BLOCK then at else blk, at;
    if blk != NO_BLOCK {
      res := d.Sdi(blk);
      if res != FrOk {
        return FrDiskErr;
      }
      i := blk;
    }
    while true
      invariant p <= i <= at && d.Valid() && d.AtEntry(i) && at < RowCount(d.table) == RowCount(old(d.table))
      invariant Deleted(Rows(old(d.table)), Rows(d.table), p, i)
      decreases at - i
    {
      var e: Entry;
      res, e := d.Load(i);
      if res != FrOk {
        return;
      }
      Put(d, e[0 := DDEM], i);
      DptrAt(d, i);
      if d.dptr >= last {
        break;
      }
      res := d.Next(false, i);
      if res != FrOk {
        return FrDiskErr;
      }
      i := i + 1;
    }
    res := FrOk;
  }

  /** Entries [p, i) are marked deleted. */
  ghost predicate Deleted(es: seq<Entry>, fs: seq<Entry>, p: nat, i: nat) {
    |fs| == |es| && forall j :: 0 <= j < |es| ==> fs[j] == if p <= j < i then es[j][0 := DDEM] else es[j]
  }

  /** Look for a name and remove it: the directory part of unlinking a file. */
  method Unlink(d: Dir, q: Query) returns (res: FResult)
    requires d.Valid()
    modifies d`dptr, d`clust, d`sect, d`chain, d`table, d.fs
    ensures res == FrOk || res == FrNoFile || res == FrDiskErr
    ensures res == FrNoFile ==> d.Valid() && d.table == old(d.table)
    ensures res != FrDiskErr ==> (res == FrOk <==> Find(q, Rows(old(d.table))).Found?)
    ensures res == FrOk ==> d.Valid() && WasRemoved(Find(q, Rows(old(d.table))), Rows(old(d.table)), Rows(d.table))
    ensures res == FrOk && WellFormed(Rows(old(d.table))) && !q.noLong ==>
              OnlyRemoved(Find(q, Rows(old(d.table))), Rows(old(d.table)), Rows(d.table))
    ensures d.fs.reliable ==> res != FrDiskErr
  {
    hide TableOn, Dir.AtEntry, EntryAt, Rows, Search;
    var at: nat, blk: int;
    res, at, blk := DirFind(d, q);
    if res == FrOk {
      BlockBefore(q, Rows(d.table), 0, SCAN_START);
      ghost var es := Rows(d.table);
      res := DirRemove(d, blk, at);
      if res == FrOk && WellFormed(es) && !q.noLong {
        RemovesOne(q, es, Rows(d.table));
      }
    }
  }

  /** From es to fs the entries of the name found were marked deleted. */
  ghost predicate WasRemoved(f: Finding, es: seq<Entry>, fs: seq<Entry>) {
    f.Found? && var p := if f.blk == NO_BLOCK then f.at else f.blk; 0 <= p <= f.at && Removed(es, fs, p, f.at - p + 1)
  }

  /** The name found was one whole name. Without it the directory is still well formed, and every search that found
      another name, or none, finds the same. */
  ghost predicate OnlyRemoved(f: Finding, es: seq<Entry>, gs: seq<Entry>) {
    && f.Found? && IsWhole(es, f) && Removed(es, gs, Begin(f), f.at - Begin(f) + 1) && WellFormed(gs)
    && forall r: Query :: (Find(r, es).Found? && Find(r, es).at == f.at) || Find(r, gs) == Find(r, es)
  }

  lemma RemovesOne(q: Query, es: seq<Entry>, gs: seq<Entry>)
    requires WellFormed(es) && !q.noLong && WasRemoved(Find(q, es), es, gs)
    ensures OnlyRemoved(Find(q, es), es, gs)
  {
    hide WellFormed, Find, WholeName, Removed;
    FoundIsWhole(q, es);
    var f := Find(q, es);
    WholeRemoved(es, gs, Begin(f), f.at);
    forall r: Query | !(Find(r, es).Found? && Find(r, es).at == f.at)
      ensures Find(r, gs) == Find(r, es)
    {
      OthersFound(r, es, gs, Begin(f), f.at);
    }
  }

  // ---- Creating and removing a name ------------------------------------------------------------

  lemma GrownKeeps(es: seq<Entry>, fs: seq<Entry>, q: Query)
    requires WellFormed(es) && Grown(es, fs)
    ensures WellFormed(fs) && Find(q, fs) == Find(q, es)
  {
    ZerosAtEnd(q, es, fs, 0, SCAN_START);
    forall i | 0 <= i < |fs| - 1
      ensures Follows(fs[i], fs[i + 1])
    {
      if i + 1 < |es| {
        assert Follows(es[i], es[i + 1]);
      }
    }
  }

  /** Every entry in use stays as it is, and every other one stays free. */
  ghost predicate SameLive(es: seq<Entry>, fs: seq<Entry>) {
    && |es| <= |fs|
    && forall j :: 0 <= j < |fs| ==>
         if j < |es| && !Free(es[j]) then fs[j] == es[j] else Free(fs[j])
  }

  /** Every entry in use stays as it is. */
  ghost predicate KeepsLive(es: seq<Entry>, fs: seq<Entry>) {
    |es| <= |fs| && forall j :: 0 <= j < |es| && !Free(es[j]) ==> fs[j] == es[j]
  }

  /** From es to fs the name was added in entries [p, p + n), the last of which the query finds; all other entries
      in use are as they were. */
  ghost predicate IsCreated(q: Query, es: seq<Entry>, fs: seq<Entry>, p: nat, n: nat, lfn: seq<Unit>, fn: Field) {
    && WellFormed(fs) && KeepsLive(es, fs) && n > 0 && Block(fs, p, n, lfn, fn)
    && Find(q, fs) == Found(p + n - 1, if n == 1 then NO_BLOCK else p)
  }

  const DIR_CRT_TIME: nat := 14

  /** A new entry as opening the file leaves it: the archive bit, the times, no clusters and no size. The upper half
      of its start cluster is zero already. */
  function Stamped(e: Entry): Entry {
    var b: Entry := StDword(StDword(e, DIR_CRT_TIME, FAT_TIME), DIR_MOD_TIME, FAT_TIME);
    StDword(StWord(b[DIR_ATTR := AM_ARC], DIR_FST_CLUS_LO, 0), DIR_FILE_SIZE, 0)
  }

  lemma StampedFields(e: Entry)
    ensures Stamped(e)[..11] == e[..11] && Stamped(e)[DIR_NTRES] == e[DIR_NTRES] && Stamped(e)[DIR_ATTR] == AM_ARC
    ensures forall k :: 26 <= k < 32 ==> Stamped(e)[k] == 0
    ensures Stamped(e)[DIR_FST_CLUS_HI] == e[DIR_FST_CLUS_HI]
    ensures Stamped(e)[DIR_FST_CLUS_HI + 1] == e[DIR_FST_CLUS_HI + 1]
  {
  }

  /** All bytes of a new entry. */
  lemma NewEntryBytes(fn: Field, body: bool, ext: bool)
    ensures Stamped(ShortEntry(fn, body, ext)) ==
            fn + [0x20, (if body then 8 else 0) + (if ext then 16 else 0), 0, 1, 0, 0, 0, 0, 0, 0, 0, 1, 0, 0, 0]
            + [0, 0, 0, 0, 0, 0]
  {
  }

  lemma StampedIsRegistered(es: seq<Entry>, fs: seq<Entry>, p: nat, n: nat, lfn: seq<Unit>, fn: Field)
    requires Registered(es, fs, p, n, lfn, fn)
    ensures 0 < n && p + n <= |fs|
    ensures Registered(es, fs[p + n - 1 := Stamped(fs[p + n - 1])], p, n, lfn, fn)
  {
    hide IsPart, Stamped;
    StampedFields(fs[p + n - 1]);
  }

  /** Look for a name and register it if it is not there, as opening a file for writing does. It is then found,
      where it was registered, and all other entries in use are as they were. */
  method Create(d: Dir, q: Query, lfn: seq<Unit>, cf: Flags)
    returns (res: FResult, fn: Field, ghost before: seq<Entry>, ghost p: nat, ghost n: nat)
    requires d.Valid() && WellFormed(Rows(d.table)) && Usable(q.fn) && Name(lfn) && lfn != []
             && HoldsFrom(q.buf, lfn, 0)
    requires !q.noLong && q.loss == cf.loss && (cf.loss ==> cf.lfn)
    modifies d`dptr, d`clust, d`sect, d`chain, d`table, d.fs
    ensures res == FrOk || res == FrExist || res == FrDenied || res == FrDiskErr
    ensures res == FrOk ==>
            d.Valid() && IsCreated(q, Rows(old(d.table)), Rows(d.table), p, n, lfn, fn) && n == EntriesFor(lfn, cf)
    ensures res == FrOk ==> Grown(Rows(old(d.table)), before) && Registered(before, Rows(d.table), p, n, lfn, fn)
    ensures res == FrOk ==>
              && 0 < n && p + n <= RowCount(d.table)
              && Rows(d.table)[p + n - 1] == Stamped(ShortEntry(fn, cf.body, cf.ext))
              && d.AtEntry(p + n - 1) && d.dptr == 32 * (p + n - 1) && Usable(fn) && (!cf.loss ==> fn == q.fn)
    ensures res == FrOk ==> NoLonger(|old(d.table)|, |d.table|, d.fs.g.csize, p + n) && AllBlocked(before, p, n)
    ensures res == FrOk && cf.loss ==> FirstNumbered(q.buf, q.up, q.fn, lfn, fn, Rows(old(d.table)))
    ensures res == FrExist ==> d.Valid() && d.table == old(d.table)
    ensures res == FrExist <==> res != FrDiskErr && !Find(q, Rows(old(d.table))).NotThere?
    ensures res == FrDenied ==>
            d.Valid() && Grown(Rows(old(d.table)), Rows(d.table)) && Refused(d, q.buf, q.up, lfn, q.fn, cf)
    ensures d.fs.reliable ==> res != FrDiskErr
  {
    hide TableOn, Dir.AtEntry, EntryAt, Rows, WellFormed, Find, Grown, IsCreated, Usable, Registered, Refused,
         FirstNumbered, Stamped, NoLonger, ShortEntry, AllBlocked;
    fn, before, p, n := q.fn, [], 0, 0;
    var at: nat, blk: int;
    res, at, blk := DirFind(d, q);
    if res == FrNoFile {
      ghost var es := Rows(d.table);
      res, fn, before, p, n := DirRegister(d, q.buf, q.up, lfn, q.fn, cf);
      if res == FrOk {
        StampedIsRegistered(before, Rows(d.table), p, n, lfn, fn);
        var e: Entry;
        res, e := d.Load(p + n - 1);
        if res == FrOk {
          Put(d, Stamped(e), p + n - 1);
          Created(q, es, before, Rows(d.table), p, n, lfn, fn);
          DptrAt(d, p + n - 1);
        }
      }
    } else if res == FrOk {
      res := FrExist;
    }
  }

  lemma Created(q: Query, es: seq<Entry>, before: seq<Entry>, fs: seq<Entry>, p: nat, n: nat, lfn: seq<Unit>, fn: Field)
    requires WellFormed(es) && Grown(es, before) && Registered(before, fs, p, n, lfn, fn) && Find(q, es).NotThere?
    requires !q.noLong && Name(lfn) && HoldsFrom(q.buf, lfn, 0) && (n == 1 ==> q.fn == fn && !q.loss)
    ensures IsCreated(q, es, fs, p, n, lfn, fn)
  {
    hide WellFormed, Find, Block;
    BlockRoom(fs, p, n, lfn, fn);
    GrownKeeps(es, before, q);
    RegisteredIsFound(q, before, fs, p, n, lfn, fn);
    RegisteredIsWellFormed(before, fs, p, n, lfn, fn);
  }

  /** Removing a name just created restores the entries in use, and what every search finds. */
  lemma CreateThenRemove(q: Query, es: seq<Entry>, before: seq<Entry>, fs: seq<Entry>, gs: seq<Entry>, p: nat, n: nat,
                         lfn: seq<Unit>, fn: Field)
    requires WellFormed(es) && Grown(es, before) && Registered(before, fs, p, n, lfn, fn) && Removed(fs, gs, p, n)
    ensures SameLive(es, gs) && WellFormed(gs) && Find(q, gs) == Find(q, es)
  {
    hide WellFormed, Find;
    GrownKeeps(es, before, q);
    LiveRestored(before, fs, gs, p, n, lfn, fn);
    FindRestored(q, before, fs, gs, p, n, lfn, fn);
    RemovedIsWellFormed(before, fs, gs, p, n, lfn, fn);
  }

  /** Create a name and unlink it again. Whatever becomes of it, a well-formed directory stays so, every entry in use
      stays as it is and every search finds what it found before. */
  method CreateAndUnlink(d: Dir, q: Query, lfn: seq<Unit>, cf: Flags) returns (res: FResult)
    requires d.Valid() && WellFormed(Rows(d.table)) && Usable(q.fn) && Name(lfn) && lfn != []
             && HoldsFrom(q.buf, lfn, 0)
    requires !q.noLong && q.loss == cf.loss && (cf.loss ==> cf.lfn)
    modifies d`dptr, d`clust, d`sect, d`chain, d`table, d.fs
    ensures res == FrOk || res == FrExist || res == FrDenied || res == FrDiskErr
    ensures res == FrExist ==> !Find(q, Rows(old(d.table))).NotThere?
    ensures res == FrDenied ==> d.Valid() && Refused(d, q.buf, q.up, lfn, q.fn, cf)
    ensures res != FrDiskErr ==> d.Valid() && Restored(Rows(old(d.table)), Rows(d.table))
    ensures d.fs.reliable ==> res != FrDiskErr
  {
    hide TableOn, Dir.AtEntry, EntryAt, Rows, WellFormed, Find, Grown, Usable, Registered, Refused, Restored, Block;
    ghost var es := Rows(d.table);
    var fn: Field;
    ghost var before, p: nat, n: nat;
    res, fn, before, p, n := Create(d, q, lfn, cf);
    if res == FrOk {
      ghost var fs := Rows(d.table);
      res := Unlink(d, q);
      if res != FrDiskErr {
        CreateThenRemoveAll(es, before, fs, Rows(d.table), p, n, lfn, fn);
      }
    } else if res == FrDenied {
      GrownRestores(es, Rows(d.table));
    } else if res == FrExist {
      GrownNot(es);
      GrownRestores(es, Rows(d.table));
    }
  }

  /** fs is well formed, holds the entries in use of es and no others, and searches alike. */
  ghost predicate Restored(es: seq<Entry>, fs: seq<Entry>) {
    SameLive(es, fs) && WellFormed(fs) && forall q: Query :: Find(q, fs) == Find(q, es)
  }

  lemma CreateThenRemoveAll(es: seq<Entry>, before: seq<Entry>, fs: seq<Entry>, gs: seq<Entry>, p: nat, n: nat,
                            lfn: seq<Unit>, fn: Field)
    requires WellFormed(es) && Grown(es, before) && Registered(before, fs, p, n, lfn, fn) && Removed(fs, gs, p, n)
    ensures Restored(es, gs)
  {
    hide WellFormed, Find, Grown, Registered, Removed, SameLive;
    forall q: Query
      ensures SameLive(es, gs) && WellFormed(gs) && Find(q, gs) == Find(q, es)
    {
      CreateThenRemove(q, es, before, fs, gs, p, n, lfn, fn);
    }
    var q0: Query := Query(seq(256, _ => 0), seq(11, _ => 0), u => u, false, false);
    CreateThenRemove(q0, es, before, fs, gs, p, n, lfn, fn);
  }

  lemma GrownRestores(es: seq<Entry>, fs: seq<Entry>)
    requires WellFormed(es) && Grown(es, fs)
    ensures Restored(es, fs)
  {
    hide WellFormed, Find;
    forall q: Query
      ensures WellFormed(fs) && Find(q, fs) == Find(q, es)
    {
      GrownKeeps(es, fs, q);
    }
    GrownKeeps(es, fs, Query(seq(256, _ => 0), seq(11, _ => 0), u => u, false, false));
  }
}
