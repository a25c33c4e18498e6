/** Whole runs of adding, removing, looking up and listing names, against a list of names. */
module NameRuns {
  import opened Bytes
  import opened Utf
  import opened VolumeGeometry
  import opened Volumes
  import opened Chains
  import opened FatEntries
  import opened FileLayout
  import opened FileState
  import opened LongNames
  import NameSegments
  import WholeNames
  import opened ShortNames
  import opened DirTables
  import opened Directories
  import opened DirOps
  import opened Listing
  import opened NameLists
  import opened NameMatching

  /** The reference: the directory's names in order, with what its table holds. */
  datatype Names = Names(es: seq<Entry>, os: seq<Item>)

  datatype NameOp =
    | AddName(q: Query, lfn: seq<Unit>, cf: Flags, cs: seq<nat>)
    | RemoveName(q: Query, lfn: seq<Unit>)
    | LookUp(q: Query, lfn: seq<Unit>)
    | ListNames

  datatype NameOut = NameOut(res: FResult, at: nat, list: seq<Info>)

  /** The engine's case table and its code page. */
  datatype Charset = Charset(up: Unit -> Unit, oem: Unit -> byte)

  /** A name to add as a path segment gives it: the query for it, and the flags of its short form. */
  ghost predicate IsRequest(q: Query, lfn: seq<Unit>, cf: Flags, e: Charset) {
    && IsQuery(q, lfn) && !q.noLong && lfn != [] && q.loss == cf.loss && (cf.loss ==> cf.lfn) && q.up == e.up
    && MadeShort(lfn, e.oem, q.fn, cf)
  }

  /** An operation of an engine with this case table and code page. */
  ghost predicate AllowedName(op: NameOp, e: Charset) {
    match op
    case AddName(q, lfn, cf, cs) => IsRequest(q, lfn, cf, e)
    case RemoveName(q, lfn) => IsQuery(q, lfn) && !q.noLong && q.up == e.up
    case LookUp(q, lfn) => IsQuery(q, lfn) && !q.noLong && q.up == e.up
    case ListNames => true
  }

  /** The characters of a long name. */
  ghost predicate Spelled(lfn: seq<Unit>, cs: seq<nat>) {
    AllScalar(cs) && NameSegments.AllLegal(cs) && cs != [] && lfn == Utf16All(cs) && 0 < |lfn| <= MAX_LFN
  }

  /** A path segment that names something, without U+FFFF, is a request. */
  method AskFor(path: seq<byte>, start: nat, oem: Unit -> byte, up: Unit -> Unit, buf0: Buffer, ghost want: seq<nat>,
                ghost wat: seq<nat>)
    returns (ok: bool, q: Query, r: Segment, ghost cs: seq<nat>)
    requires start <= |path| && Folds(up) && forall u: Unit :: oem(u) != 0x2E
    ensures ok ==> r.Named? && IsRequest(q, r.lfn, r.cf, Charset(up, oem)) && Spelled(r.lfn, cs)
    ensures Spells(path, start, wat, want) && 0xFFFF !in want ==> ok && cs == want[..NameSegments.StripEnd(want)]
  {
    hide Utf16All, IsShort, Fits, Usable, NameSegments.SegmentIs, NameSegments.StripsTo;
    ghost var at;
    ok, q, r, cs, at := AskName(path, start, oem, up, buf0, want, wat);
    if ok {
      cs := cs[..NameSegments.StripEnd(cs)];
    }
  }

  // ---- The reference ---------------------------------------------------------------------------

  ghost predicate Fine(rows: nat, s: Names) {
    WellFormed(s.es) && Tiled(s.es, s.os) && |s.es| <= rows
  }

  ghost predicate HasShort(os: seq<Item>, fn: Field) {
    exists k :: 0 <= k < |os| && os[k].fn == fn
  }

  /** All numbered forms before the n-th are short names of the directory. */
  ghost predicate FormsTaken(fn0: Field, lfn: seq<Unit>, n: nat, os: seq<Item>) {
    forall k: nat, fn: Field :: 1 <= k < n && Numbered(fn0, lfn, k, fn) ==> HasShort(os, fn)
  }

  /** fn is the first that is not. */
  ghost predicate FirstForm(fn0: Field, lfn: seq<Unit>, fn: Field, os: seq<Item>) {
    !HasShort(os, fn) && exists k: nat :: 1 <= k < 100 && Numbered(fn0, lfn, k, fn) && FormsTaken(fn0, lfn, k, os)
  }

  /** The table at its longest. */
  ghost function Longest(es: seq<Entry>, rows: nat): seq<Entry> {
    es + seq(if rows > |es| then rows - |es| else 0, _ => Zeros())
  }

  /** The name is not there, but it cannot be added: there is no short form left, or no row of free entries even in
      the table at its longest. */
  ghost predicate Impossible(rows: nat, s: Names, q: Query, lfn: seq<Unit>, cf: Flags) {
    || (cf.loss && FormsTaken(q.fn, lfn, 100, s.os))
    || NoRow(Longest(s.es, rows), EntriesFor(lfn, cf))
  }

  /** The new object: in the first row of free entries that is long enough, with the first short name left. */
  ghost predicate IsAdded(rows: nat, s: Names, q: Query, lfn: seq<Unit>, cf: Flags, cs: seq<nat>, o: Item, s': Names) {
    && o.lfn == lfn && o.cs == cs && o.n == EntriesFor(lfn, cf) && AllBlocked(Longest(s.es, rows), o.at, o.n)
    && (if cf.loss then FirstForm(q.fn, lfn, o.fn, s.os) else o.fn == q.fn)
    && s'.os == Inserted(s.os, o) && KeepsLive(s.es, s'.es) && 0 < o.n && o.End() <= |s'.es|
    && (Spelled(lfn, cs) ==> IsCalled(s'.es, o))
  }

  ghost predicate AddStep(rows: nat, s: Names, q: Query, lfn: seq<Unit>, cf: Flags, cs: seq<nat>, res: FResult,
                          s': Names)
  {
    if Meant(q, lfn, s.os, 0) < |s.os| then res == FrExist && s' == s
    else if Impossible(rows, s, q, lfn, cf) then res == FrDenied && s'.os == s.os && Grown(s.es, s'.es)
    else res == FrOk && exists o: Item :: IsAdded(rows, s, q, lfn, cf, cs, o, s')
  }

  ghost predicate RemoveStep(s: Names, q: Query, lfn: seq<Unit>, res: FResult, s': Names) {
    var m := Meant(q, lfn, s.os, 0);
    if m < |s.os| then res == FrOk && s'.os == Without(s.os, m) && Removed(s.es, s'.es, s.os[m].at, s.os[m].n)
    else res == FrNoFile && s' == s
  }

  /** What one operation does to the reference. */
  ghost predicate NameStep(rows: nat, s: Names, op: NameOp, out: NameOut, s': Names) {
    && Fine(rows, s) && Fine(rows, s')
    && match op
       case AddName(q, lfn, cf, cs) => AddStep(rows, s, q, lfn, cf, cs, out.res, s')
       case RemoveName(q, lfn) => RemoveStep(s, q, lfn, out.res, s')
       case LookUp(q, lfn) =>
         var m := Meant(q, lfn, s.os, 0);
         && s' == s && out.res == (if m < |s.os| then FrOk else FrNoFile)
         && (m < |s.os| ==> out.at == s.os[m].End() - 1)
       case ListNames =>
         && s' == s && out.res == FrOk && |out.list| == |s.os|
         && forall k :: 0 <= k < |s.os| ==> IsShown(s.es, s.os[k], out.list[k])
  }

  // ---- The engine's refusals in terms of names -------------------------------------------------

  /** A search for a short name alone. */
  lemma TakenIsShort(buf: Buffer, up: Unit -> Unit, fn: Field, es: seq<Entry>, os: seq<Item>)
    requires WellFormed(es) && Tiled(es, os) && Usable(fn)
    ensures Taken(buf, up, fn, es) <==> HasShort(os, fn)
  {
    hide WellFormed, Tiled;
    var q := Query(buf, fn, up, true, false);
    FindsTheMeant(q, [], es, os);
    if k :| 0 <= k < |os| && os[k].fn == fn {
      assert IsMeant(q, [], os[k]);
    }
  }

  lemma AllTakenIs(buf: Buffer, up: Unit -> Unit, fn0: Field, lfn: seq<Unit>, n: nat, es: seq<Entry>, os: seq<Item>)
    requires WellFormed(es) && Tiled(es, os) && Usable(fn0)
    ensures AllTaken(buf, up, fn0, lfn, n, es) <==> FormsTaken(fn0, lfn, n, os)
  {
    hide WellFormed, Tiled, Usable, Taken, HasShort, Numbered;
    forall k: nat, fn: Field | 1 <= k < n && Numbered(fn0, lfn, k, fn)
      ensures Taken(buf, up, fn, es) <==> HasShort(os, fn)
    {
      NumberedIsUsable(fn0, lfn, k, fn);
      TakenIsShort(buf, up, fn, es, os);
    }
  }

  lemma FirstNumberedIs(buf: Buffer, up: Unit -> Unit, fn0: Field, lfn: seq<Unit>, fn: Field, es: seq<Entry>,
                        os: seq<Item>)
    requires WellFormed(es) && Tiled(es, os) && Usable(fn0) && FirstNumbered(buf, up, fn0, lfn, fn, es)
    ensures FirstForm(fn0, lfn, fn, os) && !FormsTaken(fn0, lfn, 100, os)
  {
    hide WellFormed, Tiled, Usable, Taken, HasShort, Numbered, AllTaken, FormsTaken;
    var k: nat :| 1 <= k < 100 && Numbered(fn0, lfn, k, fn) && AllTaken(buf, up, fn0, lfn, k, es);
    NumberedIsUsable(fn0, lfn, k, fn);
    TakenIsShort(buf, up, fn, es, os);
    AllTakenIs(buf, up, fn0, lfn, k, es, os);
    LeftForm(fn0, lfn, k, fn, os);
  }

  lemma LeftForm(fn0: Field, lfn: seq<Unit>, k: nat, fn: Field, os: seq<Item>)
    requires 1 <= k < 100 && Numbered(fn0, lfn, k, fn) && !HasShort(os, fn)
    ensures !FormsTaken(fn0, lfn, 100, os)
  {
    hide Numbered, HasShort;
  }

  /** The most entries the engine can make of a table: it may take every cluster. */
  ghost function Capacity(d: Dir): nat {
    var rows := if d.top == 0 then d.roots else PER_SECTOR * (d.fs.g.csize * |d.st.own|);
    if rows < MAX_ENTRIES then rows else MAX_ENTRIES
  }

  lemma WithinCapacity(d: Dir)
    requires d.Valid()
    ensures RowCount(d.table) <= Capacity(d) && (CannotGrow(d) ==> RowCount(d.table) == Capacity(d))
  {
    hide CountExact, NoOnes, ViewOk, Isolated, Tracks, Mirrors, FatOf, Chain, SectorAt, FreeSet, Geometry.Layout,
         Geometry.Wf;
    OwnCount(d.st, d.fs.Fat(), d.chain, d.top);
    if d.top != 0 {
      d.TopCluster();
      MulMono(|d.chain|, |d.st.own|, d.fs.g.csize);
    }
  }

  /** A table that cannot grow is at its longest. */
  lemma GrownIsLongest(es: seq<Entry>, fs: seq<Entry>, rows: nat)
    requires Grown(es, fs) && |fs| <= rows
    ensures fs <= Longest(es, rows) && (|fs| == rows ==> fs == Longest(es, rows))
  {
    var ls := Longest(es, rows);
    assert forall j :: 0 <= j < |fs| ==> ls[j] == fs[j];
  }

  lemma RowFound(es: seq<Entry>, ls: seq<Entry>, p: nat, n: nat)
    requires es <= ls && p + n <= |es| && (forall j :: p <= j < p + n ==> Free(es[j])) && AllBlocked(es, p, n)
    ensures !NoRow(ls, n) && AllBlocked(ls, p, n)
  {
    assert !Blocked(ls, p, n) by {
      assert forall j :: p <= j < p + n ==> ls[j] == es[j];
    }
    forall q: nat | q < p
      ensures Blocked(ls, q, n)
    {
      assert Blocked(es, q, n);
      var j :| q <= j < q + n && j < |es| && !Free(es[j]);
      assert ls[j] == es[j];
    }
  }

  // ---- Adding ----------------------------------------------------------------------------------

  lemma Added(rows: nat, es: seq<Entry>, os: seq<Item>, q: Query, lfn: seq<Unit>, cf: Flags, e: Charset, o: Item,
              before: seq<Entry>, fs: seq<Entry>)
    requires Fine(rows, Names(es, os)) && IsRequest(q, lfn, cf, e) && Meant(q, lfn, os, 0) == |os|
    requires Grown(es, before) && Registered(before, fs, o.at, o.n, o.lfn, o.fn) && AllBlocked(before, o.at, o.n)
    requires 0 < o.n && o.End() <= |fs| <= rows && fs[o.End() - 1] == Stamped(ShortEntry(o.fn, cf.body, cf.ext))
    requires WellFormed(fs) && KeepsLive(es, fs) && Usable(o.fn)
    requires o.lfn == lfn && o.n == EntriesFor(lfn, cf)
             && if cf.loss then FirstNumbered(q.buf, q.up, q.fn, lfn, o.fn, es) else o.fn == q.fn
    ensures Fine(rows, Names(fs, Inserted(os, o)))
    ensures AddStep(rows, Names(es, os), q, lfn, cf, o.cs, FrOk, Names(fs, Inserted(os, o)))
  {
    hide WellFormed, Tiled, Block, Grown, Registered, Usable, FirstNumbered, FirstForm, FormsTaken, AllBlocked, NoRow,
         Longest, Inserted, KeepsLive, IsCalled, IsShort, Stamped, ShortEntry, Free, IsMeant, Utf16All, Fits, Spelled;
    TiledGrown(es, before, os);
    TiledRegistered(before, fs, os, o);
    RowTaken(rows, es, before, fs, o);
    if cf.loss {
      FirstNumberedIs(q.buf, q.up, q.fn, lfn, o.fn, es, os);
    }
    if Spelled(lfn, o.cs) {
      CalledSo(es, before, fs, os, o, q, cf, e);
    }
    assert IsAdded(rows, Names(es, os), q, lfn, cf, o.cs, o, Names(fs, Inserted(os, o)));
  }

  lemma RowTaken(rows: nat, es: seq<Entry>, before: seq<Entry>, fs: seq<Entry>, o: Item)
    requires Grown(es, before) && Registered(before, fs, o.at, o.n, o.lfn, o.fn) && AllBlocked(before, o.at, o.n)
    requires 0 < o.n && o.End() <= |fs| <= rows
    ensures !NoRow(Longest(es, rows), o.n) && AllBlocked(Longest(es, rows), o.at, o.n)
  {
    GrownIsLongest(es, before, rows);
    RowFound(before, Longest(es, rows), o.at, o.n);
  }

  lemma CalledSo(es: seq<Entry>, before: seq<Entry>, fs: seq<Entry>, os: seq<Item>, o: Item, q: Query, cf: Flags,
                 e: Charset)
    requires Tiled(es, os) && Grown(es, before) && Registered(before, fs, o.at, o.n, o.lfn, o.fn) && Usable(o.fn)
    requires IsRequest(q, o.lfn, cf, e) && o.n == EntriesFor(o.lfn, cf) && (!cf.loss ==> o.fn == q.fn)
    requires 0 < o.n && o.End() <= |fs| && fs[o.End() - 1] == Stamped(ShortEntry(o.fn, cf.body, cf.ext))
    requires Spelled(o.lfn, o.cs)
    ensures IsCalled(fs, o)
  {
    hide Tiled, Grown, Registered, IsShort, Stamped, ShortEntry, Usable, Utf16All, Inserted, IsCalled;
    NameCreated(es, before, fs, os, o, Named(o.lfn, q.fn, cf));
  }

  lemma Denied(d: Dir, es: seq<Entry>, os: seq<Item>, q: Query, lfn: seq<Unit>, cf: Flags, e: Charset)
    requires d.Valid() && Fine(Capacity(d), Names(es, os)) && IsRequest(q, lfn, cf, e) && Meant(q, lfn, os, 0) == |os|
    requires Grown(es, Rows(d.table)) && Refused(d, q.buf, q.up, lfn, q.fn, cf)
    ensures Fine(Capacity(d), Names(Rows(d.table), os))
    ensures AddStep(Capacity(d), Names(es, os), q, lfn, cf, [], FrDenied, Names(Rows(d.table), os))
  {
    hide WellFormed, Tiled, Grown, FormsTaken, NoRow, Longest, Rows, AllTaken, IsMeant, Capacity, CannotGrow, Dir.Valid,
         Usable, Fits, IsShort;
    var fs := Rows(d.table);
    WithinCapacity(d);
    TiledGrown(es, fs, os);
    GrownKeeps(es, fs, q);
    GrownIsLongest(es, fs, Capacity(d));
    AllTakenIs(q.buf, q.up, q.fn, lfn, 100, fs, os);
  }

  lemma SameStep(rows: nat, s: Names, q: Query, lfn: seq<Unit>, cf: Flags, cs: seq<nat>, s': Names)
    requires AddStep(rows, s, q, lfn, cf, [], FrDenied, s')
    ensures AddStep(rows, s, q, lfn, cf, cs, FrDenied, s')
  {
  }

  /** Add a name. */
  method Add(d: Dir, q: Query, lfn: seq<Unit>, cf: Flags, ghost e: Charset, ghost cs: seq<nat>, ghost os: seq<Item>)
    returns (res: FResult, ghost qs: seq<Item>)
    requires d.Valid() && d.fs.reliable && Fine(Capacity(d), Names(Rows(d.table), os)) && IsRequest(q, lfn, cf, e)
    modifies d`dptr, d`clust, d`sect, d`chain, d`table, d.fs
    ensures d.Valid() && Fine(Capacity(d), Names(Rows(d.table), qs))
    ensures AddStep(Capacity(d), Names(Rows(old(d.table)), os), q, lfn, cf, cs, res, Names(Rows(d.table), qs))
  {
    hide TableOn, Rows, WellFormed, Tiled, Grown, Registered, Refused, FirstNumbered, AllBlocked, Stamped, ShortEntry,
         Find, Usable, Capacity, NoLonger, KeepsLive, Fits, IsShort, IsMeant, Impossible, IsAdded, Dir.AtEntry, Block;
    ghost var es := Rows(d.table);
    FindsTheMeant(q, lfn, es, os);
    qs := os;
    var fn: Field;
    ghost var before, p: nat, n: nat;
    res, fn, before, p, n := Create(d, q, lfn, cf);
    WithinCapacity(d);
    if res == FrOk {
      ghost var o := Item(p, n, lfn, fn, cs);
      Added(Capacity(d), es, os, q, lfn, cf, e, o, before, Rows(d.table));
      qs := Inserted(os, o);
    } else if res == FrDenied {
      Denied(d, es, os, q, lfn, cf, e);
      SameStep(Capacity(d), Names(es, os), q, lfn, cf, cs, Names(Rows(d.table), os));
    }
  }

  // ---- Removing, looking up, listing -----------------------------------------------------------

  lemma RemovedSo(rows: nat, es: seq<Entry>, gs: seq<Entry>, os: seq<Item>, m: nat, q: Query, f: Finding)
    requires Fine(rows, Names(es, os)) && m < |os| && f == Found(os[m].End() - 1, BlockOf(q, os[m])) && !q.noLong
    requires OnlyRemoved(f, es, gs)
    ensures Removed(es, gs, os[m].at, os[m].n) && Fine(rows, Names(gs, Without(os, m)))
  {
    hide WellFormed, Tiled, Find, WholeNames.WholeName, Removed, Without;
    LastOf(es, os, m);
    TiledRemoved(es, gs, os, m);
    RemovedLength(es, gs, os[m].at, os[m].n);
  }

  lemma LastOf(es: seq<Entry>, os: seq<Item>, m: nat)
    requires Tiled(es, os) && m < |os|
    ensures 0 < os[m].n && os[m].End() <= |es|
  {
    BlockRoom(es, os[m].at, os[m].n, os[m].lfn, os[m].fn);
  }

  lemma RemovedLength(es: seq<Entry>, gs: seq<Entry>, p: nat, n: nat)
    requires Removed(es, gs, p, n)
    ensures |gs| == |es|
  {
  }

  /** Remove a name. */
  method Remove(d: Dir, q: Query, lfn: seq<Unit>, ghost os: seq<Item>) returns (res: FResult, ghost qs: seq<Item>)
    requires d.Valid() && d.fs.reliable && Fine(Capacity(d), Names(Rows(d.table), os)) && IsQuery(q, lfn) && !q.noLong
    modifies d`dptr, d`clust, d`sect, d`chain, d`table, d.fs
    ensures d.Valid() && Fine(Capacity(d), Names(Rows(d.table), qs))
    ensures RemoveStep(Names(Rows(old(d.table)), os), q, lfn, res, Names(Rows(d.table), qs))
  {
    hide TableOn, Rows, WellFormed, Tiled, Find, Capacity, IsMeant, OnlyRemoved, Removed, Without, IsQuery, BlockOf;
    ghost var es := Rows(d.table);
    FindsTheMeant(q, lfn, es, os);
    qs := os;
    res := Unlink(d, q);
    if res == FrOk {
      ghost var m := Meant(q, lfn, os, 0);
      RemovedSo(Capacity(d), es, Rows(d.table), os, m, q, Find(q, es));
      qs := Without(os, m);
    }
  }

  /** One operation on a drive that does not fail. */
  method DoName(d: Dir, op: NameOp, buf0: Buffer, uni: byte -> Unit, ghost e: Charset, ghost os: seq<Item>)
    returns (out: NameOut, ghost qs: seq<Item>)
    requires d.Valid() && d.fs.reliable && Fine(Capacity(d), Names(Rows(d.table), os)) && AllowedName(op, e)
    requires forall c: byte :: c < 0x80 ==> uni(c) == c as nat
    modifies d`dptr, d`clust, d`sect, d`chain, d`table, d.fs
    ensures d.Valid()
    ensures NameStep(Capacity(d), Names(Rows(old(d.table)), os), op, out, Names(Rows(d.table), qs))
  {
    hide TableOn, Rows, WellFormed, Tiled, Find, Capacity, IsMeant, AddStep, RemoveStep, IsRequest, IsQuery, BlockOf,
         IsShown, Dir.AtEntry;
    qs := os;
    match op {
      case AddName(q, lfn, cf, cs) =>
        var res: FResult;
        res, qs := Add(d, q, lfn, cf, e, cs, os);
        out := NameOut(res, 0, []);
      case RemoveName(q, lfn) =>
        var res: FResult;
        res, qs := Remove(d, q, lfn, os);
        out := NameOut(res, 0, []);
      case LookUp(q, lfn) =>
        FindsTheMeant(q, lfn, Rows(d.table), os);
        var res, at, blk := DirFind(d, q);
        out := NameOut(res, at, []);
      case ListNames =>
        var res, list := ListAll(d, buf0, uni, os);
        out := NameOut(res, 0, list);
    }
  }

  // ---- Runs ------------------------------------------------------------------------------------

  ghost predicate NameTrace(rows: nat, states: seq<Names>, ops: seq<NameOp>, outs: seq<NameOut>) {
    && |states| == |ops| + 1 && |outs| == |ops|
    && forall i :: 0 <= i < |ops| ==> NameStep(rows, states[i], ops[i], outs[i], states[i + 1])
  }

  /** Every run of operations on a directory is a run of the reference. */
  method Run(d: Dir, ops: seq<NameOp>, buf0: Buffer, uni: byte -> Unit, ghost e: Charset, ghost os: seq<Item>)
    returns (outs: seq<NameOut>, ghost states: seq<Names>)
    requires d.Valid() && d.fs.reliable && WellFormed(Rows(d.table)) && Tiled(Rows(d.table), os)
    requires forall i :: 0 <= i < |ops| ==> AllowedName(ops[i], e)
    requires forall c: byte :: c < 0x80 ==> uni(c) == c as nat
    modifies d`dptr, d`clust, d`sect, d`chain, d`table, d.fs
    ensures d.Valid() && NameTrace(Capacity(d), states, ops, outs)
    ensures states[0] == Names(Rows(old(d.table)), os) && states[|ops|].es == Rows(d.table)
  {
    hide Dir.Valid, Rows, WellFormed, Tiled, Capacity, NameStep, AllowedName;
    WithinCapacity(d);
    ghost var qs := os;
    outs, states := [], [Names(Rows(d.table), os)];
    var i: nat := 0;
    while i < |ops|
      invariant i <= |ops| && d.Valid() && Fine(Capacity(d), Names(Rows(d.table), qs))
      invariant NameTrace(Capacity(d), states, ops[..i], outs)
      invariant states[0] == Names(Rows(old(d.table)), os) && states[i] == Names(Rows(d.table), qs)
    {
      var out: NameOut;
      out, qs := DoName(d, ops[i], buf0, uni, e, qs);
      FineAfter(Capacity(d), states[i], ops[i], out, Names(Rows(d.table), qs));
      outs, states := outs + [out], states + [Names(Rows(d.table), qs)];
      i := i + 1;
    }
    assert ops[..i] == ops;
  }

  lemma FineAfter(rows: nat, s: Names, op: NameOp, out: NameOut, s': Names)
    requires NameStep(rows, s, op, out, s')
    ensures Fine(rows, s')
  {
  }

  // ---- No two names are equal ------------------------------------------------------------------

  /** No two names are equal but for case, and no two short names are equal; a name without a long form is 8.3. */
  ghost predicate AllDistinct(up: Unit -> Unit, os: seq<Item>) {
    && (forall k :: 0 <= k < |os| && os[k].n <= 1 ==> Fits(os[k].lfn, os[k].fn))
    && forall j, k :: 0 <= j < |os| && 0 <= k < |os| && j != k ==> Apart(up, os[j], os[k])
  }

  ghost predicate Apart(up: Unit -> Unit, a: Item, b: Item) {
    a.fn != b.fn && !SameFolded(up, a.lfn, b.lfn)
  }

  /** Upper-casing is that of ASCII there, and takes nothing else into it. */
  ghost predicate AsciiFolds(up: Unit -> Unit) {
    forall u: Unit :: if u < 0x80 then up(u) == Raised(u) else up(u) >= 0x80
  }

  /** A name equal to an 8.3 name but for case is 8.3, with the same short form. */
  lemma FoldedFits(up: Unit -> Unit, a: seq<Unit>, b: seq<Unit>, fn: Field)
    requires AsciiFolds(up) && SameFolded(up, a, b) && Fits(b, fn)
    ensures Fits(a, fn)
  {
    var di :| 0 <= di <= |b| && FitsAt(b, di, fn);
    forall k | 0 <= k < |b|
      ensures Raised(a[k]) == Raised(b[k]) && (a[k] == 0x2E <==> b[k] == 0x2E) && (ShortChar(b[k]) ==> ShortChar(a[k]))
    {
      assert up(a[k]) == up(b[k]);
      assert b[k] == 0x2E || ShortChar(b[k]);
    }
    assert FitsAt(a, di, fn);
  }

  /** A name that means no object of the directory is apart from all. */
  lemma NewIsApart(e: Charset, os: seq<Item>, q: Query, lfn: seq<Unit>, cf: Flags, o: Item, k: nat)
    requires AllDistinct(e.up, os) && k < |os| && AsciiFolds(e.up) && IsRequest(q, lfn, cf, e)
    requires Meant(q, lfn, os, 0) == |os| && o.lfn == lfn
    requires if cf.loss then FirstForm(q.fn, lfn, o.fn, os) else o.fn == q.fn
    ensures Apart(e.up, o, os[k]) && Apart(e.up, os[k], o)
  {
    hide IsShort, Fits, FormsTaken, Numbered, IsQuery, AsciiFolds, MadeShort;
    var b := os[k];
    assert !IsMeant(q, lfn, b);
    if SameFolded(e.up, lfn, b.lfn) && b.n <= 1 {
      FoldedFits(e.up, lfn, b.lfn, b.fn);
      FitsMade(lfn, e.oem, q.fn, cf, b.fn);
    }
    assert cf.loss ==> o.fn != b.fn;
  }

  lemma ShortFits(lfn: seq<Unit>, fn: Field, body: bool, ext: bool)
    requires IsShort(lfn, fn, body, ext)
    ensures Fits(lfn, fn)
  {
    var di :| 0 <= di <= |lfn| && IsShortAt(lfn, di, fn, body, ext);
    assert FitsAt(lfn, di, fn);
  }

  lemma AddKeepsDistinct(e: Charset, rows: nat, s: Names, q: Query, lfn: seq<Unit>, cf: Flags, cs: seq<nat>,
                         o: Item, s': Names)
    requires AllDistinct(e.up, s.os) && AsciiFolds(e.up) && IsRequest(q, lfn, cf, e)
    requires Meant(q, lfn, s.os, 0) == |s.os| && IsAdded(rows, s, q, lfn, cf, cs, o, s')
    ensures AllDistinct(e.up, s'.os)
  {
    hide IsShort, Fits, MadeShort, FirstForm, Inserted, Apart, IsCalled, KeepsLive, AllBlocked, AsciiFolds;
    var os, qs := s.os, s'.os;
    InsertedAt(os, o, 0);
    forall j | 0 <= j < |os|
      ensures Apart(e.up, o, os[j]) && Apart(e.up, os[j], o)
    {
      NewIsApart(e, os, q, lfn, cf, o, j);
    }
    if o.n <= 1 {
      NeedsNoLong(lfn, e.oem, q.fn, cf);
      ShortFits(lfn, q.fn, cf.body, cf.ext);
    }
    forall k | 0 <= k < |qs| && qs[k].n <= 1
      ensures Fits(qs[k].lfn, qs[k].fn)
    {
      InsertedAt(os, o, k);
    }
    forall j, k | 0 <= j < |qs| && 0 <= k < |qs| && j != k
      ensures Apart(e.up, qs[j], qs[k])
    {
      InsertedAt(os, o, j);
      InsertedAt(os, o, k);
    }
  }

  lemma RemoveKeepsDistinct(up: Unit -> Unit, os: seq<Item>, m: nat)
    requires AllDistinct(up, os) && m < |os|
    ensures AllDistinct(up, Without(os, m))
  {
    hide Fits, Apart;
    var qs := Without(os, m);
    assert forall j :: 0 <= j < |qs| ==> qs[j] == os[if j < m then j else j + 1];
  }

  lemma StepKeepsDistinct(e: Charset, rows: nat, s: Names, op: NameOp, out: NameOut, s': Names)
    requires NameStep(rows, s, op, out, s') && AllowedName(op, e) && AllDistinct(e.up, s.os) && AsciiFolds(e.up)
    ensures AllDistinct(e.up, s'.os)
  {
    hide AllDistinct, Fine, IsRequest, Impossible, IsAdded, Removed, IsQuery, IsShown, AsciiFolds, IsMeant;
    match op {
      case AddName(q, lfn, cf, cs) =>
        if out.res == FrOk {
          var o: Item :| IsAdded(rows, s, q, lfn, cf, cs, o, s');
          AddKeepsDistinct(e, rows, s, q, lfn, cf, cs, o, s');
        }
      case RemoveName(q, lfn) =>
        var m := Meant(q, lfn, s.os, 0);
        if m < |s.os| {
          RemoveKeepsDistinct(e.up, s.os, m);
        }
      case LookUp(_, _) =>
      case ListNames =>
    }
  }

  lemma TraceBefore(rows: nat, states: seq<Names>, ops: seq<NameOp>, outs: seq<NameOut>)
    requires NameTrace(rows, states, ops, outs) && ops != []
    ensures var n := |ops| - 1;
            && NameTrace(rows, states[..n + 1], ops[..n], outs[..n])
            && NameStep(rows, states[n], ops[n], outs[n], states[n + 1])
  {
    hide NameStep;
    var n := |ops| - 1;
    forall i | 0 <= i < n
      ensures NameStep(rows, states[..n + 1][i], ops[..n][i], outs[..n][i], states[..n + 1][i + 1])
    {
      assert NameStep(rows, states[i], ops[i], outs[i], states[i + 1]);
    }
  }

  /** Whatever is added and removed, no two names of a directory become equal but for case. */
  lemma {:induction false} NamesStayDistinct(e: Charset, rows: nat, states: seq<Names>, ops: seq<NameOp>,
                                             outs: seq<NameOut>)
    requires NameTrace(rows, states, ops, outs) && forall i :: 0 <= i < |ops| ==> AllowedName(ops[i], e)
    requires AsciiFolds(e.up) && AllDistinct(e.up, states[0].os)
    ensures AllDistinct(e.up, states[|ops|].os)
    decreases |ops|
  {
    hide AllDistinct, NameStep, AllowedName, AsciiFolds;
    if ops != [] {
      var n := |ops| - 1;
      TraceBefore(rows, states, ops, outs);
      NamesStayDistinct(e, rows, states[..n + 1], ops[..n], outs[..n]);
      StepKeepsDistinct(e, rows, states[n], ops[n], outs[n], states[n + 1]);
    }
  }

  // ---- A name stays until it is removed --------------------------------------------------------

  /** The entries of the object are the same in both. */
  ghost predicate SameEntries(es: seq<Entry>, fs: seq<Entry>, o: Item) {
    0 < o.n && o.End() <= |es| && o.End() <= |fs| && forall i :: o.at <= i < o.End() ==> fs[i] == es[i]
  }

  /** The operation removes the object. */
  ghost predicate Takes(s: Names, op: NameOp, o: Item) {
    op.RemoveName? && var m := Meant(op.q, op.lfn, s.os, 0); m < |s.os| && s.os[m] == o
  }

  /** Entries of an object in use that stay as they are. */
  lemma UsedEntries(es: seq<Entry>, fs: seq<Entry>, os: seq<Item>, k: nat)
    requires Tiled(es, os) && k < |os| && KeepsLive(es, fs)
    ensures SameEntries(es, fs, os[k])
  {
    hide Passed, Usable, Block, Free;
    var o := os[k];
    BlockRoom(es, o.at, o.n, o.lfn, o.fn);
    forall i | o.at <= i < o.End()
      ensures fs[i] == es[i]
    {
      InUse(es, o, i);
    }
  }

  /** Entries of an object beside one that is removed. */
  lemma EntriesBeside(es: seq<Entry>, fs: seq<Entry>, os: seq<Item>, k: nat, m: nat)
    requires Tiled(es, os) && k < |os| && m < |os| && k != m && Removed(es, fs, os[m].at, os[m].n)
    ensures SameEntries(es, fs, os[k])
  {
    hide Passed, Usable, Block;
    BlockRoom(es, os[k].at, os[k].n, os[k].lfn, os[k].fn);
  }

  lemma AddKeepsName(rows: nat, s: Names, q: Query, lfn: seq<Unit>, cf: Flags, cs: seq<nat>, res: FResult, s': Names,
                     k: nat)
    requires Fine(rows, s) && AddStep(rows, s, q, lfn, cf, cs, res, s') && k < |s.os|
    ensures s.os[k] in s'.os && SameEntries(s.es, s'.es, s.os[k])
  {
    hide WellFormed, Tiled, Impossible, IsMeant, IsCalled, FirstForm, AllBlocked, Spelled, Inserted;
    if res == FrOk {
      var b: Item :| IsAdded(rows, s, q, lfn, cf, cs, b, s');
      InsertedAt(s.os, b, if k < Position(s.os, b.at) then k else k + 1);
    } else if s'.es != s.es {
      GrownKeepsLive(s.es, s'.es);
    }
    UsedEntries(s.es, s'.es, s.os, k);
  }

  lemma GrownKeepsLive(es: seq<Entry>, fs: seq<Entry>)
    requires Grown(es, fs)
    ensures KeepsLive(es, fs)
  {
  }

  lemma RemoveKeepsName(s: Names, q: Query, lfn: seq<Unit>, res: FResult, s': Names, k: nat)
    requires Tiled(s.es, s.os) && RemoveStep(s, q, lfn, res, s') && k < |s.os| && k != Meant(q, lfn, s.os, 0)
    ensures s.os[k] in s'.os && SameEntries(s.es, s'.es, s.os[k])
  {
    hide Tiled, IsMeant, Removed, KeepsLive, SameEntries;
    var m := Meant(q, lfn, s.os, 0);
    if m < |s.os| {
      assert Without(s.os, m)[if k < m then k else k - 1] == s.os[k];
      EntriesBeside(s.es, s'.es, s.os, k, m);
    } else {
      Itself(s.es);
      UsedEntries(s.es, s'.es, s.os, k);
    }
  }

  lemma Itself(es: seq<Entry>)
    ensures KeepsLive(es, es)
  {
  }

  lemma StepKeepsName(rows: nat, s: Names, op: NameOp, out: NameOut, s': Names, o: Item)
    requires NameStep(rows, s, op, out, s') && o in s.os && !Takes(s, op, o)
    ensures o in s'.os && SameEntries(s.es, s'.es, o)
  {
    hide WellFormed, Tiled, AddStep, RemoveStep, IsMeant, IsShown, KeepsLive, SameEntries;
    var k :| 0 <= k < |s.os| && s.os[k] == o;
    match op {
      case AddName(q, lfn, cf, cs) => AddKeepsName(rows, s, q, lfn, cf, cs, out.res, s', k);
      case RemoveName(q, lfn) => RemoveKeepsName(s, q, lfn, out.res, s', k);
      case LookUp(_, _) =>
        Itself(s.es);
        UsedEntries(s.es, s'.es, s.os, k);
      case ListNames =>
        Itself(s.es);
        UsedEntries(s.es, s'.es, s.os, k);
    }
  }

  lemma EntriesOn(es: seq<Entry>, fs: seq<Entry>, gs: seq<Entry>, o: Item)
    requires SameEntries(es, fs, o) && SameEntries(fs, gs, o)
    ensures SameEntries(es, gs, o)
  {
  }

  /** A name stays in its directory, with its entries as they are, until an operation removes it. */
  lemma {:induction false} NamesAreStable(rows: nat, states: seq<Names>, ops: seq<NameOp>, outs: seq<NameOut>, o: Item)
    requires NameTrace(rows, states, ops, outs) && o in states[0].os && SameEntries(states[0].es, states[0].es, o)
    requires forall i :: 0 <= i < |ops| ==> !Takes(states[i], ops[i], o)
    ensures o in states[|ops|].os && SameEntries(states[0].es, states[|ops|].es, o)
    decreases |ops|
  {
    hide NameStep, Takes, SameEntries;
    if ops != [] {
      var n := |ops| - 1;
      TraceBefore(rows, states, ops, outs);
      NamesAreStable(rows, states[..n + 1], ops[..n], outs[..n], o);
      StepKeepsName(rows, states[n], ops[n], outs[n], states[n + 1], o);
      EntriesOn(states[0].es, states[n].es, states[n + 1].es, o);
    }
  }

  /** The object is one the query's name was added for. */
  ghost predicate IsOf(o: Item, q: Query, lfn: seq<Unit>) {
    !q.noLong && o.lfn == lfn && (o.n <= 1 ==> !q.loss) && (!q.loss ==> o.fn == q.fn)
  }

  /** Where no two names are equal, the query means it and nothing else. */
  lemma OnlyMeant(os: seq<Item>, j: nat, q: Query, lfn: seq<Unit>)
    requires AllDistinct(q.up, os) && j < |os| && IsOf(os[j], q, lfn)
    ensures Meant(q, lfn, os, 0) == j
  {
    hide Fits;
    assert IsMeant(q, lfn, os[j]);
    var m := Meant(q, lfn, os, 0);
    assert m == j || Apart(q.up, os[j], os[m]);
  }

  /** After a name was added, and whatever else was added and removed since, looking it up finds it, at its own
      entries, and adding it again is refused. */
  lemma AddedIsFound(e: Charset, rows: nat, states: seq<Names>, ops: seq<NameOp>, outs: seq<NameOut>, o: Item)
    requires NameTrace(rows, states, ops, outs) && forall i :: 0 <= i < |ops| ==> AllowedName(ops[i], e)
    requires AsciiFolds(e.up) && AllDistinct(e.up, states[0].os) && |ops| >= 2
    requires var a := ops[0]; a.AddName? && IsAdded(rows, states[0], a.q, a.lfn, a.cf, a.cs, o, states[1])
    requires forall i :: 1 <= i < |ops| - 1 ==> !Takes(states[i], ops[i], o)
    ensures var b, last := ops[|ops| - 1], |ops| - 1;
            && (b.LookUp? && b.q == ops[0].q && b.lfn == ops[0].lfn ==>
                  outs[last].res == FrOk && outs[last].at == o.End() - 1)
            && (b.AddName? && b.q == ops[0].q && b.lfn == ops[0].lfn ==> outs[last].res == FrExist)
  {
    hide NameStep, AllDistinct, AllowedName, AsciiFolds, Takes, IsAdded;
    var last := |ops| - 1;
    TraceBefore(rows, states, ops, outs);
    var ss, os, us := states[..last + 1], ops[..last], outs[..last];
    NamesStayDistinct(e, rows, ss, os, us);
    StillThere(rows, ss, os, us, o);
    FoundThere(e, rows, states[0], ops[0], states[1], o, states[last], ops[last], outs[last], states[last + 1]);
  }

  lemma StillThere(rows: nat, states: seq<Names>, ops: seq<NameOp>, outs: seq<NameOut>, o: Item)
    requires NameTrace(rows, states, ops, outs) && |ops| >= 1
    requires var a := ops[0]; a.AddName? && IsAdded(rows, states[0], a.q, a.lfn, a.cf, a.cs, o, states[1])
    requires forall i :: 1 <= i < |ops| ==> !Takes(states[i], ops[i], o)
    ensures o in states[|ops|].os
  {
    hide NameStep, Takes;
    var ss, os, us := states[1..], ops[1..], outs[1..];
    forall i | 0 <= i < |os|
      ensures NameStep(rows, ss[i], os[i], us[i], ss[i + 1]) && !Takes(ss[i], os[i], o)
    {
      assert NameStep(rows, states[i + 1], ops[i + 1], outs[i + 1], states[i + 2]);
    }
    InsertedAt(states[0].os, o, Position(states[0].os, o.at));
    NamesAreStable(rows, ss, os, us, o);
  }

  lemma FoundThere(e: Charset, rows: nat, s0: Names, a: NameOp, s1: Names, o: Item, s: Names, b: NameOp,
                   out: NameOut, s': Names)
    requires a.AddName? && AllowedName(a, e) && IsAdded(rows, s0, a.q, a.lfn, a.cf, a.cs, o, s1)
    requires NameStep(rows, s, b, out, s') && AllDistinct(e.up, s.os) && o in s.os
    ensures b.LookUp? && b.q == a.q && b.lfn == a.lfn ==> out.res == FrOk && out.at == o.End() - 1
    ensures b.AddName? && b.q == a.q && b.lfn == a.lfn ==> out.res == FrExist
  {
    hide AllDistinct, Fine, IsMeant, IsShown, FirstForm, Impossible, IsAdded, RemoveStep;
    var j :| 0 <= j < |s.os| && s.os[j] == o;
    OfRequest(rows, s0, a, s1, o, e);
    OnlyMeant(s.os, j, a.q, a.lfn);
  }

  lemma OfRequest(rows: nat, s0: Names, a: NameOp, s1: Names, o: Item, e: Charset)
    requires a.AddName? && AllowedName(a, e) && IsAdded(rows, s0, a.q, a.lfn, a.cf, a.cs, o, s1)
    ensures IsOf(o, a.q, a.lfn)
  {
    hide FirstForm, AllBlocked, KeepsLive, Inserted, IsCalled, Fits, IsShort;
  }

  // ---- A name that was not added is not found --------------------------------------------------

  /** The object was added under a name of the run, and given its short name then. */
  ghost predicate WasAdded(rows: nat, states: seq<Names>, ops: seq<NameOp>, o: Item, i: nat)
    requires |states| == |ops| + 1
  {
    && i < |ops| && ops[i].AddName?
    && var a := ops[i]; IsAdded(rows, states[i], a.q, a.lfn, a.cf, a.cs, o, states[i + 1])
  }

  lemma StepAdds(rows: nat, s: Names, op: NameOp, out: NameOut, s': Names, o: Item)
    requires NameStep(rows, s, op, out, s') && o in s'.os && o !in s.os
    ensures op.AddName? && IsAdded(rows, s, op.q, op.lfn, op.cf, op.cs, o, s')
  {
    hide Fine, IsMeant, Impossible, FirstForm, AllBlocked, KeepsLive, IsCalled, Spelled, IsShown, Position, Removed;
    match op {
      case AddName(q, lfn, cf, cs) =>
        if out.res == FrOk {
          var b: Item :| IsAdded(rows, s, q, lfn, cf, cs, b, s');
          NotElse(s.os, b, o);
        }
      case RemoveName(q, lfn) =>
      case LookUp(_, _) =>
      case ListNames =>
    }
  }

  lemma NotElse(os: seq<Item>, b: Item, o: Item)
    requires o in Inserted(os, b) && o !in os
    ensures o == b
  {
  }

  lemma {:induction false} AllWereAdded(rows: nat, states: seq<Names>, ops: seq<NameOp>, outs: seq<NameOut>, o: Item)
    returns (i: nat)
    requires NameTrace(rows, states, ops, outs) && states[0].os == [] && o in states[|ops|].os
    ensures WasAdded(rows, states, ops, o, i)
    decreases |ops|
  {
    hide NameStep, IsAdded;
    var n := |ops| - 1;
    TraceBefore(rows, states, ops, outs);
    if o in states[n].os {
      i := AllWereAdded(rows, states[..n + 1], ops[..n], outs[..n], o);
    } else {
      StepAdds(rows, states[n], ops[n], outs[n], states[n + 1], o);
      i := n;
    }
  }

  /** The name is found as this object: by its long name, or being 8.3 itself, as the object's short name. */
  ghost predicate FoundAs(e: Charset, lfn: seq<Unit>, o: Item) {
    SameFolded(e.up, lfn, o.lfn) || (Is83(lfn, e.oem) && Shortened(lfn, e.oem, o.fn))
  }

  lemma MeantAs(e: Charset, q: Query, lfn: seq<Unit>, cf: Flags, o: Item)
    requires IsRequest(q, lfn, cf, e) && IsMeant(q, lfn, o)
    ensures FoundAs(e, lfn, o)
  {
    hide Is83, Shortened, IsShort, SameFolded, IsQuery;
  }

  /** In a directory that started empty, a name that is found was added, but for case, or it is an 8.3 name and the
      short name of one that was. So a name that is not 8.3 and was not added is not found. */
  lemma FoundWasAdded(e: Charset, rows: nat, states: seq<Names>, ops: seq<NameOp>, outs: seq<NameOut>, cf: Flags)
    returns (o: Item, i: nat)
    requires NameTrace(rows, states, ops, outs) && states[0].os == [] && ops != []
    requires var b, last := ops[|ops| - 1], |ops| - 1;
             b.LookUp? && IsRequest(b.q, b.lfn, cf, e) && outs[last].res == FrOk
    ensures WasAdded(rows, states, ops, o, i) && o in states[|ops|].os && FoundAs(e, ops[|ops| - 1].lfn, o)
    ensures o.lfn == ops[i].lfn && outs[|ops| - 1].at == o.End() - 1
  {
    hide Fine, IsMeant, IsRequest, FoundAs, FirstForm, AllBlocked, KeepsLive, IsCalled, Spelled, AddStep, RemoveStep,
         IsShown;
    var last := |ops| - 1;
    var b, s := ops[last], states[last];
    assert NameStep(rows, s, b, outs[last], states[last + 1]);
    o := s.os[Meant(b.q, b.lfn, s.os, 0)];
    MeantAs(e, b.q, b.lfn, cf, o);
    i := AllWereAdded(rows, states, ops, outs, o);
  }
}
