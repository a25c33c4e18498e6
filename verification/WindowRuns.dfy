/** Whole runs of the one-sector window over a drive that may fail. */
module WindowRuns {
  import opened Bytes
  import opened VolumeGeometry
  import opened FatEntries
  import opened Volumes

  datatype WindowOp = Move(sect: nat) | Edit(data: Sector) | Flush | PutEntry(clst: nat, val: nat)

  /** One step of a run: what was asked, whether it succeeded, and the sector the window was on. */
  datatype Event = Event(op: WindowOp, ok: bool, at: nat)

  /** What a step does to the drive as the engine sees it: an edit changes the sector under the window, a stored entry
      one entry of the FAT, or spoils it, and nothing else changes anything. */
  ghost predicate Explains(g: Geometry, e: Event, v: seq<Sector>, w: seq<Sector>)
    requires g.Layout() && |v| == g.total
  {
    match e.op
    case Move(s) => w == v && (e.ok ==> e.at == s)
    case Flush => w == v
    case Edit(d) => w == if e.ok && e.at < |v| then v[e.at := d] else v
    case PutEntry(c, x) => |w| == |v| && Stores(g, c, x, e.ok, v, w)
  }

  ghost function TableOf(g: Geometry): Table {
    Table(g.kind, g.nFatent, g.fatbase, g.fsize)
  }

  /** From v to w the FAT changes at cluster c only, to x cut to the width of an entry if the store succeeded. */
  ghost predicate Stores(g: Geometry, c: nat, x: nat, ok: bool, v: seq<Sector>, w: seq<Sector>)
    requires g.Layout() && |w| == |v| == g.total
  {
    && SameOutsideFat(TableOf(g), v, w)
    && SameExcept(FatOf(TableOf(g), v), FatOf(TableOf(g), w), c)
    && (ok ==> g.ValidCluster(c) && FatOf(TableOf(g), w)[c] == x % g.kind.EntryLimit())
    && (!g.ValidCluster(c) ==> w == v)
  }

  /** What a drive that does not fail must do. */
  predicate Possible(g: Geometry, op: WindowOp) {
    match op
    case Move(s) => s < g.total
    case Flush => true
    case Edit(_) => false
    case PutEntry(c, _) => g.ValidCluster(c)
  }

  /** One operation. copied says whether every write to the second FAT it made succeeded. */
  method Do(vol: Volume, op: WindowOp) returns (e: Event, ghost copied: bool)
    requires vol.Valid()
    modifies vol
    ensures vol.Valid() && e.op == op && Explains(vol.g, e, old(vol.view), vol.view)
    ensures op.Flush? && e.ok ==> !vol.wflag
    ensures e.at == vol.winsect && (op.Edit? ==> e.at == old(vol.winsect))
    ensures vol.reliable && Possible(vol.g, op) ==> e.ok
    ensures op.Edit? ==> (e.ok <==> vol.winsect < vol.g.total && !vol.g.Unchecked(vol.winsect))
    ensures vol.missed >= old(vol.missed) && copied == (vol.missed == old(vol.missed))
    ensures vol.reliable ==> copied
  {
    hide Tracks, Mirrors, FatOf, SameExcept, SameOutsideFat;
    assert TableOf(vol.g) == vol.FatTable();
    match op {
      case Move(s) =>
        var res := vol.MoveWindow(s);
        e := Event(op, res == FrOk, vol.winsect);
      case Flush =>
        var res := vol.SyncWindow();
        e := Event(op, res == FrOk, vol.winsect);
      case Edit(d) =>
        var ok := vol.winsect < vol.g.total && !vol.g.Unchecked(vol.winsect);
        e := Event(op, ok, vol.winsect);
        if ok {
          vol.EditWindow(d);
        }
      case PutEntry(c, x) =>
        var res := vol.PutFat(c, x);
        e := Event(op, res == FrOk, vol.winsect);
    }
    copied := vol.missed == old(vol.missed);
  }

  ghost predicate Explained(g: Geometry, views: seq<seq<Sector>>, es: seq<Event>)
    requires g.Layout()
  {
    && |views| == |es| + 1
    && (forall i :: 0 <= i < |views| ==> |views[i]| == g.total)
    && (forall i :: 0 <= i < |es| ==> Explains(g, es[i], views[i], views[i + 1]))
  }

  /** On every run, failed reads and writes included, the drive as the engine sees it changes by explicit edits and
      stored entries only. A run that ends with a flush that succeeds leaves on the disk what the engine sees and, if
      the second FAT equalled the first to begin with and no write to it failed on the way, leaves it so. */
  method Run(vol: Volume, ops: seq<WindowOp>)
      returns (es: seq<Event>, ghost views: seq<seq<Sector>>, ghost copied: seq<bool>)
    requires vol.Valid()
    modifies vol
    ensures vol.Valid() && |es| == |ops| == |copied| && Explained(vol.g, views, es)
    ensures forall i :: 0 <= i < |ops| ==> es[i].op == ops[i]
    ensures forall i :: 0 < i < |es| && es[i].op.Edit? ==> es[i].at == es[i - 1].at
    ensures vol.reliable ==> forall i :: 0 <= i < |es| && Possible(vol.g, es[i].op) ==> es[i].ok
    ensures views[0] == old(vol.view) && views[|es|] == vol.view
    ensures ops != [] && ops[|ops| - 1].Flush? && es[|es| - 1].ok ==>
              && (forall s :: 0 <= s < |vol.disk| && !vol.g.Unchecked(s) ==> vol.disk[s] == vol.view[s])
              && (old(vol.Mirrored()) && false !in copied ==> Mirrors(vol.disk, vol.g.fatbase, vol.g.fsize, -1))
    ensures vol.reliable ==> false !in copied
  {
    hide Volume.Valid, Explains, Mirrors;
    Fits(vol);
    es, views, copied := [], [vol.view], [];
    var i: nat := 0;
    while i < |ops|
      invariant vol.Valid() && i == |es| == |copied| <= |ops| && Explained(vol.g, views, es)
      invariant views[0] == old(vol.view) && views[i] == vol.view
      invariant forall j :: 0 <= j < i ==> es[j].op == ops[j]
      invariant i > 0 && ops[i - 1].Flush? && es[i - 1].ok ==> !vol.wflag
      invariant forall j :: 0 < j < i && es[j].op.Edit? ==> es[j].at == es[j - 1].at
      invariant i > 0 ==> es[i - 1].at == vol.winsect
      invariant vol.reliable ==> forall j :: 0 <= j < i && Possible(vol.g, es[j].op) ==> es[j].ok
      invariant false !in copied ==> vol.missed == old(vol.missed)
      invariant vol.reliable ==> false !in copied
    {
      var e, c := Do(vol, ops[i]);
      es, views, copied := es + [e], views + [vol.view], copied + [c];
      i := i + 1;
      Fits(vol);
    }
    if ops != [] && ops[|ops| - 1].Flush? && es[|es| - 1].ok {
      vol.CleanWindow();
    }
  }

  lemma Fits(vol: Volume)
    requires vol.Valid()
    ensures vol.g.Layout() && |vol.disk| == |vol.view| == vol.g.total
  {
  }
}
