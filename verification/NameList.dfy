/** A directory as a list of names that are added, removed, looked up and listed. */
module NameLists {
  import opened Bytes
  import opened Utf
  import opened Volumes
  import opened LongNames
  import opened NameSegments
  import opened ShortNames
  import opened DirTables
  import opened Directories
  import opened DirOps
  import opened Listing

  /** An object of a directory: its entries [at, at + n), its long and its short name, and the characters of its
      name. */
  datatype Item = Item(at: nat, n: nat, lfn: seq<Unit>, fn: Field, cs: seq<nat>) {
    function End(): nat {
      at + n
    }
  }

  /** Entry i belongs to none of the objects. */
  ghost predicate Outside(os: seq<Item>, i: nat) {
    forall k :: 0 <= k < |os| ==> !(os[k].at <= i < os[k].End())
  }

  /** The entries in use are those of the objects, in this order, and what a listing passes over. */
  ghost predicate Tiled(es: seq<Entry>, os: seq<Item>) {
    && (forall k :: 0 <= k < |os| ==> Block(es, os[k].at, os[k].n, os[k].lfn, os[k].fn) && Usable(os[k].fn))
    && (forall j, k :: 0 <= j < k < |os| ==> os[j].End() <= os[k].at)
    && forall i :: 0 <= i < |es| && Outside(os, i) ==> Passed(es[i])
  }

  // ---- Listing ---------------------------------------------------------------------------------

  /** A listing that has shown the first k objects is at an entry between them and the next. */
  ghost predicate Between(os: seq<Item>, k: nat, at: nat) {
    && k <= |os| && (forall j :: 0 <= j < k ==> os[j].End() <= at)
    && (k < |os| ==> at <= os[k].at)
  }

  /** What it comes to next. */
  lemma NextObject(es: seq<Entry>, os: seq<Item>, k: nat, at: nat)
    requires WellFormed(es) && Tiled(es, os) && Between(os, k, at) && at <= |es|
    ensures k <= |os| && if k < |os| then Comes(es, at, os[k].at) else forall j :: at <= j < |es| ==> Passed(es[j])
  {
    hide Block, WellFormed, Passed;
    if k < |os| {
      var o := os[k];
      BlockRoom(es, o.at, o.n, o.lfn, o.fn);
      BlockFollows(es, o.at, o.n, o.lfn, o.fn, o.at);
      forall j | at <= j < o.at
        ensures Passed(es[j]) && es[j][0] != 0
      {
        assert Outside(os, j);
        if es[j][0] == 0 {
          ZeroFrom(es, j, o.at);
        }
      }
    } else {
      forall j | at <= j < |es|
        ensures Passed(es[j])
      {
        assert Outside(os, j);
      }
    }
  }

  /** What a listing gives for an object: its short-name entry and its name as text. */
  datatype Info = Info(e: Entry, name: seq<byte>)

  /** The object's name is this text's: characters a path can hold, in the long name or, in their cases, in the short
      one. */
  ghost predicate IsCalled(es: seq<Entry>, o: Item)
    requires 0 < o.n && o.End() <= |es|
  {
    && AllScalar(o.cs) && AllLegal(o.cs) && o.cs != [] && o.lfn == Utf16All(o.cs) && 0 < |o.lfn| <= MAX_LFN
    && (o.n == 1 ==> IsShort(o.lfn, o.fn, HasBody(es[o.at]), HasExt(es[o.at])))
  }

  /** The listing shows the object: its own entry and, if the text fits, its own name. */
  ghost predicate IsShown(es: seq<Entry>, o: Item, i: Info) {
    && 0 < o.n && o.End() <= |es| && i.e == es[o.End() - 1]
    && (IsCalled(es, o) && |Utf8All(o.cs)| <= LFN_BUF ==> i.name == Utf8All(o.cs))
  }

  lemma BufferEnds(buf: Buffer, lfn: seq<Unit>)
    requires HoldsFrom(buf, lfn, 0)
    ensures exists j :: 0 <= j < 256 && buf[j] == 0
  {
    assert buf[|lfn|] == 0;
  }

  /** The name of an object just read. */
  method NameOf(e: Entry, buf: Buffer, long: bool, uni: byte -> Unit, ghost es: seq<Entry>, ghost o: Item)
    returns (i: Info)
    requires forall c: byte :: c < 0x80 ==> uni(c) == c as nat
    requires Block(es, o.at, o.n, o.lfn, o.fn) && e == es[o.End() - 1] && (long <==> o.n > 1)
    requires o.n > 1 ==> HoldsFrom(buf, o.lfn, 0)
    ensures IsShown(es, o, i)
  {
    hide Utf8All, Utf16All, IsShort, HasBody, HasExt, IsPart;
    if long {
      BufferEnds(buf, o.lfn);
    }
    if IsCalled(es, o) {
      Shown(o.cs, o.lfn, buf, o.n);
    }
    var name;
    ghost var got;
    name, got := FileName(e, buf, long, uni, o.cs, o.fn);
    i := Info(e, name);
  }

  /** An object read where the cursor comes to this one is this one, with its long name if it has one. */
  lemma ReadIs(es: seq<Entry>, at: nat, o: Item, x: nat, buf: Buffer, found: bool, long: bool)
    requires Comes(es, at, o.at) && Block(es, o.at, o.n, o.lfn, o.fn) && Usable(o.fn) && NoneFrom(es, at, x)
    requires if found then IsRead(es, at, x, buf, long) else x == |es| || es[x][0] == 0
    ensures found && 0 < o.n && x == o.End() - 1 && (long <==> o.n > 1) && (long ==> HoldsFrom(buf, o.lfn, 0))
  {
    hide Block, Usable, NoneFrom, NameBefore, AllInBuffer, IsObject, HoldsFrom, PartsFrom, HasName;
    ObjectRead(es, at, o.at, o.n, o.lfn, o.fn, x);
    NameRead(es, at, o.at, o.n, o.lfn, o.fn);
    if o.n > 1 {
      NameParts(es, o.at, x);
      NameHeld(buf, es, o.at, o.n, o.lfn, o.fn, o.n - 1);
    }
  }

  lemma ReadIsObject(es: seq<Entry>, at: nat, x: nat, buf: Buffer, long: bool)
    requires IsRead(es, at, x, buf, long)
    ensures at <= x < |es| && !Passed(es[x])
  {
  }

  /** Read the object the cursor comes to next, and move behind it; if there is none, to the end. */
  method ListNext(d: Dir, buf0: Buffer, uni: byte -> Unit, ghost at: nat, ghost os: seq<Item>, ghost k: nat)
    returns (res: FResult, found: bool, i: Info, buf: Buffer)
    requires d.Valid() && WellFormed(Rows(d.table)) && Tiled(Rows(d.table), os)
    requires at < RowCount(d.table) && d.AtEntry(at) && Between(os, k, at)
    requires forall c: byte :: c < 0x80 ==> uni(c) == c as nat
    modifies d`dptr, d`clust, d`sect, d`chain, d`table, d.fs
    ensures res == FrOk || res == FrNoFile || res == FrDiskErr
    ensures res != FrDiskErr ==> d.Valid() && d.table == old(d.table) && (found <==> k < |os|)
    ensures found && res != FrDiskErr ==> IsShown(Rows(d.table), os[k], i)
    ensures res == FrOk ==>
              && k < |os| && at < os[k].End() < RowCount(d.table) && d.AtEntry(os[k].End())
              && Between(os, k + 1, os[k].End())
    ensures res == FrNoFile ==> if found then k + 1 == |os| else k == |os|
    ensures d.fs.reliable ==> res != FrDiskErr
  {
    hide TableOn, EntryAt, Dir.AtEntry, Rows, WellFormed, Passed, IsShown, Comes, Block, Usable, Between, Tiled, IsRead,
         NoneFrom;
    ghost var es := Rows(d.table);
    ghost var o := if k < |os| then os[k] else Item(0, 0, [], seq(11, _ => 0), []);
    NextObject(es, os, k, at);
    if k < |os| {
      AfterObject(es, os, k, at);
    }
    i := Info(seq(32, _ => 0), []);
    var e: Entry, long: bool;
    ghost var x: nat;
    res, e, buf, long, x := DirRead(d, buf0, at);
    found := res == FrOk;
    if res != FrDiskErr {
      if k < |os| {
        ReadIs(es, at, o, x, buf, found, long);
      } else if found {
        ReadIsObject(es, at, x, buf, long);
        assert false;
      }
    }
    if found {
      i := NameOf(e, buf, long, uni, es, o);
      res := d.Next(false, o.End() - 1);
      if res == FrNoFile {
        LastObject(es, os, k);
      }
    }
  }

  /** List a directory from its first entry on: each object is shown once, in order, and nothing else. */
  method ListAll(d: Dir, buf0: Buffer, uni: byte -> Unit, ghost os: seq<Item>) returns (res: FResult, list: seq<Info>)
    requires d.Valid() && WellFormed(Rows(d.table)) && Tiled(Rows(d.table), os)
    requires forall c: byte :: c < 0x80 ==> uni(c) == c as nat
    modifies d`dptr, d`clust, d`sect, d`chain, d`table, d.fs
    ensures res == FrOk || res == FrDiskErr
    ensures res == FrOk ==> d.Valid() && d.table == old(d.table) && |list| == |os|
    ensures res == FrOk ==> forall k :: 0 <= k < |os| ==> IsShown(Rows(d.table), os[k], list[k])
    ensures d.fs.reliable ==> res == FrOk
  {
    hide TableOn, EntryAt, Dir.AtEntry, Rows, WellFormed, IsShown, Between, Tiled, Dir.Valid;
    ghost var at: nat := 0;
    var buf, found := buf0, true;
    list := [];
    d.NotEmpty();
    FirstObject(os);
    res := d.Sdi(0);
    while res == FrOk
      invariant res == FrOk || res == FrNoFile || res == FrDiskErr
      invariant res != FrDiskErr ==> d.Valid() && d.table == old(d.table)
      invariant res == FrOk ==> at < RowCount(d.table) && d.AtEntry(at) && Between(os, |list|, at)
      invariant res == FrNoFile ==> |list| == |os|
      invariant |list| <= |os| && forall k :: 0 <= k < |list| ==> IsShown(Rows(old(d.table)), os[k], list[k])
      invariant d.fs.reliable ==> res != FrDiskErr
      decreases MAX_ENTRIES - at, res == FrOk
    {
      var i: Info;
      res, found, i, buf := ListNext(d, buf, uni, at, os, |list|);
      if found && res != FrDiskErr {
        at := if res == FrOk then os[|list|].End() else at;
        list := list + [i];
      }
    }
    if res == FrNoFile {
      res := FrOk;
    }
  }

  lemma FirstObject(os: seq<Item>)
    ensures Between(os, 0, 0)
  {
  }

  lemma AfterObject(es: seq<Entry>, os: seq<Item>, k: nat, at: nat)
    requires Tiled(es, os) && k < |os| && Between(os, k, at)
    ensures at <= os[k].at
    ensures Block(es, os[k].at, os[k].n, os[k].lfn, os[k].fn) && Usable(os[k].fn)
    ensures 0 < os[k].n && os[k].End() <= |es| && Between(os, k + 1, os[k].End())
  {
    BlockRoom(es, os[k].at, os[k].n, os[k].lfn, os[k].fn);
  }

  /** After an object at the end of the table there is none. */
  lemma LastObject(es: seq<Entry>, os: seq<Item>, k: nat)
    requires Tiled(es, os) && k < |os| && os[k].End() >= |es|
    ensures k + 1 == |os|
  {
    if k + 1 < |os| {
      BlockRoom(es, os[k + 1].at, os[k + 1].n, os[k + 1].lfn, os[k + 1].fn);
    }
  }

  // ---- Adding and removing ---------------------------------------------------------------------

  /** How many of the objects start before an entry. */
  function Position(os: seq<Item>, at: nat): (k: nat)
    ensures k <= |os|
    decreases |os|
  {
    if os == [] || os[|os| - 1].at < at then |os| else Position(os[..|os| - 1], at)
  }

  lemma {:induction false} PositionSplits(es: seq<Entry>, os: seq<Item>, at: nat)
    requires Tiled(es, os)
    ensures var k := Position(os, at);
            (forall j :: 0 <= j < k ==> os[j].at < at) && forall j :: k <= j < |os| ==> os[j].at >= at
    decreases |os|
  {
    hide Block, Passed, Usable;
    StartsInOrder(es, os);
    PositionOf(os, at);
  }

  lemma StartsInOrder(es: seq<Entry>, os: seq<Item>)
    requires Tiled(es, os)
    ensures forall j, k :: 0 <= j < k < |os| ==> os[j].at < os[k].at
  {
    hide Passed, Usable;
    forall j, k | 0 <= j < k < |os|
      ensures os[j].at < os[k].at
    {
      BlockRoom(es, os[j].at, os[j].n, os[j].lfn, os[j].fn);
    }
  }

  lemma {:induction false} PositionOf(os: seq<Item>, at: nat)
    requires forall j, k :: 0 <= j < k < |os| ==> os[j].at < os[k].at
    ensures var k := Position(os, at);
            (forall j :: 0 <= j < k ==> os[j].at < at) && forall j :: k <= j < |os| ==> os[j].at >= at
    decreases |os|
  {
    if os != [] && os[|os| - 1].at >= at {
      PositionOf(os[..|os| - 1], at);
    }
  }

  function Inserted(os: seq<Item>, o: Item): seq<Item> {
    var k := Position(os, o.at);
    os[..k] + [o] + os[k..]
  }

  function Without(os: seq<Item>, k: nat): seq<Item>
    requires k < |os|
  {
    os[..k] + os[k + 1..]
  }

  lemma TiledGrown(es: seq<Entry>, fs: seq<Entry>, os: seq<Item>)
    requires Tiled(es, os) && Grown(es, fs)
    ensures Tiled(fs, os)
  {
    hide IsPart, Usable;
    forall i | 0 <= i < |fs| && Outside(os, i)
      ensures Passed(fs[i])
    {
      assert i < |es| ==> fs[i] == es[i];
    }
  }

  lemma BlockFrame(es: seq<Entry>, fs: seq<Entry>, p: nat, n: nat, lfn: seq<Unit>, fn: Field)
    requires Block(es, p, n, lfn, fn) && |fs| == |es| && forall i :: p <= i < p + n ==> fs[i] == es[i]
    ensures Block(fs, p, n, lfn, fn)
  {
    hide IsPart;
  }

  /** The entries of an object are in use. */
  lemma InUse(es: seq<Entry>, o: Item, i: nat)
    requires Block(es, o.at, o.n, o.lfn, o.fn) && o.at <= i < o.End()
    ensures i < |es| && !Free(es[i])
  {
    hide IsPart;
    BlockFollows(es, o.at, o.n, o.lfn, o.fn, i);
  }

  /** Free entries lie before or behind each object. */
  lemma Beside(es: seq<Entry>, o: Item, p: nat, n: nat)
    requires Block(es, o.at, o.n, o.lfn, o.fn) && 0 < n && p + n <= |es| && forall j :: p <= j < p + n ==> Free(es[j])
    ensures o.End() <= p || p + n <= o.at
    ensures 0 < o.n && o.End() <= |es|
  {
    BlockRoom(es, o.at, o.n, o.lfn, o.fn);
    hide Block, Free;
    if p < o.End() && o.at < p + n {
      InUse(es, o, if p < o.at then o.at else p);
    }
  }

  lemma StaysBeside(es: seq<Entry>, fs: seq<Entry>, b: Item, o: Item)
    requires Block(es, b.at, b.n, b.lfn, b.fn) && Registered(es, fs, o.at, o.n, o.lfn, o.fn)
    ensures Block(fs, b.at, b.n, b.lfn, b.fn)
    ensures if b.at < o.at then b.End() <= o.at else o.End() <= b.at
  {
    hide IsPart, Free;
    Beside(es, b, o.at, o.n);
    BlockFrame(es, fs, b.at, b.n, b.lfn, b.fn);
  }

  /** The objects around the new one, in the new directory. */
  ghost predicate Around(fs: seq<Entry>, os: seq<Item>, o: Item, k: nat) {
    forall j :: 0 <= j < |os| ==>
      && Block(fs, os[j].at, os[j].n, os[j].lfn, os[j].fn)
      && if j < k then os[j].End() <= o.at else o.End() <= os[j].at
  }

  lemma IsAround(es: seq<Entry>, fs: seq<Entry>, os: seq<Item>, o: Item)
    requires Tiled(es, os) && Registered(es, fs, o.at, o.n, o.lfn, o.fn)
    ensures Around(fs, os, o, Position(os, o.at))
  {
    PositionSplits(es, os, o.at);
    hide Block, Passed, Usable, Registered;
    forall j | 0 <= j < |os|
      ensures Block(fs, os[j].at, os[j].n, os[j].lfn, os[j].fn)
      ensures if j < Position(os, o.at) then os[j].End() <= o.at else o.End() <= os[j].at
    {
      StaysBeside(es, fs, os[j], o);
    }
  }

  lemma InsertedAt(os: seq<Item>, o: Item, j: nat)
    ensures |Inserted(os, o)| == |os| + 1
    ensures var k := Position(os, o.at);
            j <= |os| ==> Inserted(os, o)[j] == if j < k then os[j] else if j == k then o else os[j - 1]
  {
  }

  lemma OutsideBoth(os: seq<Item>, o: Item, i: nat)
    requires Outside(Inserted(os, o), i)
    ensures Outside(os, i) && !(o.at <= i < o.End())
  {
    var k := Position(os, o.at);
    InsertedAt(os, o, k);
    hide Inserted;
    forall j | 0 <= j < |os|
      ensures !(os[j].at <= i < os[j].End())
    {
      InsertedAt(os, o, if j < k then j else j + 1);
    }
  }

  lemma InsertedInOrder(fs: seq<Entry>, os: seq<Item>, o: Item)
    requires Around(fs, os, o, Position(os, o.at))
    requires forall j, k :: 0 <= j < k < |os| ==> os[j].End() <= os[k].at
    ensures var qs := Inserted(os, o); forall j, k :: 0 <= j < k < |qs| ==> qs[j].End() <= qs[k].at
  {
    hide Block, Position, Inserted;
    InsertedAt(os, o, 0);
    var qs := Inserted(os, o);
    forall j, k | 0 <= j < k < |qs|
      ensures qs[j].End() <= qs[k].at
    {
      InsertedAt(os, o, j);
      InsertedAt(os, o, k);
    }
  }

  /** A name registered is one object more. */
  lemma TiledRegistered(es: seq<Entry>, fs: seq<Entry>, os: seq<Item>, o: Item)
    requires Tiled(es, os) && Registered(es, fs, o.at, o.n, o.lfn, o.fn) && Usable(o.fn)
    ensures Tiled(fs, Inserted(os, o))
  {
    hide Passed, Usable, Block, Position, Inserted;
    IsAround(es, fs, os, o);
    InsertedInOrder(fs, os, o);
    var qs := Inserted(os, o);
    InsertedAt(os, o, 0);
    forall j | 0 <= j < |qs|
      ensures Block(fs, qs[j].at, qs[j].n, qs[j].lfn, qs[j].fn) && Usable(qs[j].fn)
    {
      InsertedAt(os, o, j);
    }
    forall i | 0 <= i < |fs| && Outside(qs, i)
      ensures Passed(fs[i])
    {
      OutsideBoth(os, o, i);
    }
  }

  /** A name removed is one object less. */
  lemma TiledRemoved(es: seq<Entry>, fs: seq<Entry>, os: seq<Item>, k: nat)
    requires Tiled(es, os) && k < |os| && Removed(es, fs, os[k].at, os[k].n)
    ensures Tiled(fs, Without(os, k))
  {
    hide Usable, Block;
    var qs, o := Without(os, k), os[k];
    assert forall j :: 0 <= j < |qs| ==> qs[j] == os[if j < k then j else j + 1];
    forall j | 0 <= j < |qs|
      ensures Block(fs, qs[j].at, qs[j].n, qs[j].lfn, qs[j].fn)
    {
      BlockRoom(es, qs[j].at, qs[j].n, qs[j].lfn, qs[j].fn);
      BlockFrame(es, fs, qs[j].at, qs[j].n, qs[j].lfn, qs[j].fn);
    }
    forall i | 0 <= i < |fs| && Outside(qs, i)
      ensures Passed(fs[i])
    {
      if !(o.at <= i < o.End()) {
        forall j | 0 <= j < |os|
          ensures !(os[j].at <= i < os[j].End())
        {
          assert j != k ==> os[j] == qs[if j < k then j else j - 1];
        }
        assert Outside(os, i);
      }
    }
  }

  // ---- The round trip of a name ----------------------------------------------------------------

  lemma NameCreated(es: seq<Entry>, before: seq<Entry>, fs: seq<Entry>, os: seq<Item>, o: Item, r: Segment)
    requires Tiled(es, os) && Grown(es, before) && Registered(before, fs, o.at, o.n, o.lfn, o.fn) && Usable(o.fn)
    requires AllScalar(o.cs) && AllLegal(o.cs) && o.cs != [] && o.lfn == Utf16All(o.cs) && 0 < |o.lfn| <= MAX_LFN
    requires r.Named? && (!r.cf.lfn ==> IsShort(r.lfn, r.fn, r.cf.body, r.cf.ext)) && o.n == EntriesFor(r.lfn, r.cf)
             && (!r.cf.loss ==> o.fn == r.fn) && (r.cf.loss ==> r.cf.lfn) && o.lfn == r.lfn
    requires 0 < o.n && o.End() <= |fs| && fs[o.End() - 1] == Stamped(ShortEntry(o.fn, r.cf.body, r.cf.ext))
    ensures Tiled(fs, Inserted(os, o)) && IsCalled(fs, o)
  {
    assert IsCalled(fs, o) by {
      CaseFlags(o.fn, r.cf.body, r.cf.ext);
      hide Tiled, Registered, Utf16All, IsShort, HasBody, HasExt, ShortEntry, Stamped, Inserted, Usable, Grown,
           AllLegal;
    }
    hide *;
    TiledGrown(es, before, os);
    TiledRegistered(before, fs, os, o);
  }

  /** The segment at start spells a name that can be stored, and the query is for it. */
  ghost predicate AsksFor(q: Query, r: Segment, up: Unit -> Unit, path: seq<byte>, start: nat, at: seq<nat>,
                          cs: seq<nat>)
    requires start <= |path|
  {
    && SegmentIs(path, at, cs) && at[0] == start && StripEnd(cs) <= |cs| && QueryFor(q, r, up) && Usable(r.fn)
    && var c := cs[..StripEnd(cs)];
      && c != [] && AllScalar(c) && AllLegal(c) && r.lfn == Utf16All(c) && Name(r.lfn) && r.lfn != []
      && (r.cf.loss ==> r.cf.lfn) && (!r.cf.lfn ==> IsShort(r.lfn, r.fn, r.cf.body, r.cf.ext))
  }

  /** Ask for the name of a path segment. */
  method AskName(path: seq<byte>, start: nat, oem: Unit -> byte, up: Unit -> Unit, buf0: Buffer, ghost want: seq<nat>,
                 ghost wat: seq<nat>)
    returns (ok: bool, q: Query, r: Segment, ghost cs: seq<nat>, ghost at: seq<nat>)
    requires start <= |path| && forall u: Unit :: oem(u) != 0x2E
    ensures ok ==> AsksFor(q, r, up, path, start, at, cs) && MadeShort(r.lfn, oem, r.fn, r.cf)
    ensures Spells(path, start, wat, want) && 0xFFFF !in want ==> ok && cs == want
  {
    hide Utf16All, IsShort, Usable, MadeShort, SegmentIs, StripsTo, Legal;
    r, cs, at := CreateName(path, start, oem, want, wat);
    ok := r.Named? && FILLER !in r.lfn;
    q := Query(buf0, seq(11, _ => SPACE), up, false, false);
    if r.Named? {
      SegmentScalar(path, at, cs);
      NoFiller(cs, StripEnd(cs));
    }
    if ok {
      Storable(cs, StripEnd(cs), r.lfn);
      q := Query(Loaded(buf0, r.lfn), r.fn, up, false, r.cf.loss);
    }
  }

  /** Create a file by name and list the directory. The listing shows each name once and nothing else, and the new
      one as the segment's characters, without trailing spaces and dots, in standard UTF-8. On a drive that does not
      fail a segment that spells a name is created, unless the name is there, all its short forms are taken or there is
      no room. A name with U+FFFF, which is the filler, is left aside. */
  method CreateAndList(d: Dir, buf0: Buffer, path: seq<byte>, start: nat, oem: Unit -> byte, uni: byte -> Unit,
                       up: Unit -> Unit, ghost want: seq<nat>, ghost wat: seq<nat>, ghost os: seq<Item>)
    returns (res: FResult, list: seq<Info>, r: Segment, ghost cs: seq<nat>, ghost at: seq<nat>, ghost q: Query,
      ghost o: Item)
    requires d.Valid() && WellFormed(Rows(d.table)) && Tiled(Rows(d.table), os) && start <= |path|
    requires (forall u: Unit :: oem(u) != 0x2E) && forall c: byte :: c < 0x80 ==> uni(c) == c as nat
    modifies d`dptr, d`clust, d`sect, d`chain, d`table, d.fs
    ensures Spells(path, start, wat, want) && 0xFFFF !in want ==>
              && res != FrInvalidName && cs == want
              && (d.fs.reliable ==> res == FrOk || res == FrExist || res == FrDenied)
    ensures res == FrOk || res == FrExist || res == FrDenied ==>
              && SegmentIs(path, at, cs) && at[0] == start && AllScalar(cs[..StripEnd(cs)])
              && QueryFor(q, r, up) && r.lfn == Utf16All(cs[..StripEnd(cs)])
    ensures res == FrExist ==> !Find(q, Rows(old(d.table))).NotThere?
    ensures res == FrDenied ==> d.Valid() && QueryFor(q, r, up) && Refused(d, q.buf, up, r.lfn, r.fn, r.cf)
    ensures res == FrOk ==>
              && d.Valid() && Find(q, Rows(old(d.table))).NotThere? && Find(q, Rows(d.table)).Found?
              && WellFormed(Rows(d.table)) && KeepsLive(Rows(old(d.table)), Rows(d.table))
    ensures res == FrOk ==>
              && o.lfn == r.lfn && o.cs == cs[..StripEnd(cs)] && Tiled(Rows(d.table), Inserted(os, o))
              && |list| == |Inserted(os, o)|
              && forall k :: 0 <= k < |list| ==> IsShown(Rows(d.table), Inserted(os, o)[k], list[k])
    ensures res == FrOk ==>
              && Position(os, o.at) < |list| && AllScalar(o.cs)
              && (|Utf8All(o.cs)| <= LFN_BUF ==> list[Position(os, o.at)].name == Utf8All(o.cs))
  {
    hide TableOn, Dir.AtEntry, Rows, WellFormed, Utf8All, Utf16All, IsShort, ShortEntry, Stamped, Usable, SegmentIs,
         Block, Find, EntryAt, StripsTo, Refused, Grown, Registered, KeepsLive, Tiled, Inserted, Position, IsCalled,
         MadeShort, Spells;
    list := [];
    o := Item(0, 0, [], seq(11, _ => 0), []);
    var ok, ask;
    ok, ask, r, cs, at := AskName(path, start, oem, up, buf0, want, wat);
    q := ask;
    if !ok {
      return FrInvalidName, list, r, cs, at, q, o;
    }
    var fn: Field;
    ghost var before, p: nat, n: nat;
    res, fn, before, p, n := Create(d, ask, r.lfn, r.cf);
    if res != FrOk {
      return;
    }
    o := Item(p, n, r.lfn, fn, cs[..StripEnd(cs)]);
    NameCreated(Rows(old(d.table)), before, Rows(d.table), os, o, r);
    res, list := ListAll(d, buf0, uni, Inserted(os, o));
    if res == FrOk {
      InsertedAt(os, o, Position(os, o.at));
    }
  }
}
