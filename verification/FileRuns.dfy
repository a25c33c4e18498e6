/** Whole runs of operations on one open file, against a byte sequence with a cursor. */
module FileRuns {
  import opened Bytes
  import VolumeGeometry
  import opened Chains
  import opened Volumes
  import opened FileLayout
  import opened FileState
  import opened OpenFiles
  import opened DirEntries

  datatype Op = DoRead(n: nat) | DoWrite(data: seq<byte>) | DoSeek(target: nat) | DoTruncate | DoSync

  datatype Out = Out(res: FResult, data: seq<byte>, count: nat)

  /** The reference: contents and cursor. */
  datatype ByteFile = ByteFile(content: seq<byte>, pos: nat)

  /** How a file is open, and how many bytes its volume has room for. */
  datatype Access = Access(canRead: bool, canWrite: bool, room: nat)

  predicate Allowed(op: Op) {
    match op
    case DoWrite(data) => |data| <= 0xFFFF_FFFF
    case DoSeek(target) => target <= MAX_FILE_SIZE
    case _ => true
  }

  /** What one operation does to the reference. All is determined but for the bytes a seek opens up. */
  ghost predicate Step(a: Access, s: ByteFile, op: Op, out: Out, s': ByteFile) {
    && s.pos <= |s.content| <= Min(MAX_FILE_SIZE, a.room) && s'.pos <= |s'.content| <= Min(MAX_FILE_SIZE, a.room)
    && (!op.DoRead? ==> out.data == []) && (!op.DoWrite? ==> out.count == 0)
    && match op
       case DoRead(n) =>
         && s'.content == s.content
         && if !a.canRead then out.res == FrDenied && out.data == [] && s'.pos == s.pos
            else && out.res == FrOk && s'.pos == s.pos + |out.data| && |out.data| == Min(n, |s.content| - s.pos)
                 && out.data == s.content[s.pos..s'.pos]
       case DoWrite(data) =>
         if !a.canWrite then out.res == FrDenied && out.count == 0 && s'.content == s.content && s'.pos == s.pos
         else && out.res == FrOk && s'.pos == s.pos + out.count
              && out.count == Min(|data|, Min(MAX_FILE_SIZE, a.room) - s.pos)
              && s'.content == Spliced(s.content, s.pos, data[..out.count])
       case DoSeek(target) =>
         && out.res == FrOk && s.content <= s'.content && |s'.content| == Max(|s.content|, s'.pos)
         && s'.pos == Min(target, if a.canWrite then a.room else |s.content|)
       case DoTruncate =>
         && s'.pos == s.pos
         && if !a.canWrite then out.res == FrDenied && s'.content == s.content
            else out.res == FrOk && s'.content == s.content[..s.pos]
       case DoSync =>
         out.res == FrOk && s'.content == s.content && s'.pos == s.pos
  }

  /** The reference state an open file stands for. */
  ghost function Abs(f: File): ByteFile
    requires f.Good()
    reads f, f.fs
  {
    ByteFile(f.Content(), f.fptr)
  }

  ghost function AccessOf(f: File): Access {
    Access(f.canRead, f.canWrite, Room(f.st))
  }

  /** One operation on a drive that does not fail. */
  method Do(f: File, op: Op) returns (out: Out)
    requires f.Good() && f.fs.reliable && Allowed(op)
    modifies f, f.fs
    ensures f.Good() && (old(f.Saved()) ==> f.Saved()) && SameName(old(f.dirData), f.dirData, f.dirOfs)
    ensures Step(AccessOf(f), old(Abs(f)), op, out, Abs(f))
  {
    hide File.Grounded, Shows, BufferOk, SectorAt, ClusterIndex, ClustersFor, FreeSet, Upto, Spliced, SectorsFor, Room,
         ClusterBytes, CutAt, File.Recorded, File.OtherEntriesKept, File.OnDisk, SameName;
    SameAtFirst(f.dirData, f.dirOfs);
    f.RoomLeft();
    var res: FResult;
    match op {
      case DoRead(n) =>
        var data: seq<byte>;
        res, data := f.Read(n);
        out := Out(res, data, 0);
      case DoWrite(data) =>
        var n: nat;
        res, n := f.Write(data);
        out := Out(res, [], n);
      case DoSeek(target) =>
        res := f.Lseek(target);
        out := Out(res, [], 0);
      case DoTruncate =>
        res := f.Truncate();
        out := Out(res, [], 0);
      case DoSync =>
        res := f.Sync();
        out := Out(res, [], 0);
    }
    f.RoomLeft();
  }

  ghost predicate Trace(a: Access, states: seq<ByteFile>, ops: seq<Op>, outs: seq<Out>) {
    && |states| == |ops| + 1 && |outs| == |ops|
    && forall i :: 0 <= i < |ops| ==> Step(a, states[i], ops[i], outs[i], states[i + 1])
  }

  /** Every run of reads, writes, seeks, truncations and syncs is a run of the reference. */
  method Run(f: File, ops: seq<Op>) returns (outs: seq<Out>, ghost states: seq<ByteFile>)
    requires f.Good() && f.fs.reliable && forall i :: 0 <= i < |ops| ==> Allowed(ops[i])
    modifies f, f.fs
    ensures f.Good() && (old(f.Saved()) ==> f.Saved()) && SameName(old(f.dirData), f.dirData, f.dirOfs)
    ensures Trace(AccessOf(f), states, ops, outs)
    ensures states[0] == old(Abs(f)) && states[|ops|] == Abs(f)
  {
    hide File.Good, File.Saved, Step, Abs, SameName;
    SameAtFirst(f.dirData, f.dirOfs);
    outs, states := [], [Abs(f)];
    var i: nat := 0;
    while i < |ops|
      invariant i <= |ops| && f.Good() && (old(f.Saved()) ==> f.Saved())
                && SameName(old(f.dirData), f.dirData, f.dirOfs)
      invariant Trace(AccessOf(f), states, ops[..i], outs)
      invariant states[0] == old(Abs(f)) && states[i] == Abs(f)
    {
      ghost var was := f.dirData;
      var out := Do(f, ops[i]);
      SameNameTwice(old(f.dirData), was, f.dirData, f.dirOfs);
      outs, states := outs + [out], states + [Abs(f)];
      i := i + 1;
    }
    assert ops[..i] == ops;
  }

  lemma SameAtFirst(b: Sector, o: EntryOfs)
    ensures SameName(b, b, o)
  {
  }

  /** The operation rewrites or cuts off byte o. */
  ghost predicate Touches(s: ByteFile, op: Op, out: Out, o: nat) {
    match op
    case DoWrite(_) => out.res == FrOk && s.pos <= o < s.pos + out.count
    case DoTruncate => out.res == FrOk && s.pos <= o
    case _ => false
  }

  lemma StepKeeps(a: Access, s: ByteFile, op: Op, out: Out, s': ByteFile, o: nat)
    requires Step(a, s, op, out, s') && o < |s.content| && !Touches(s, op, out, o)
    ensures o < |s'.content| && s'.content[o] == s.content[o]
  {
    if op.DoSeek? {
      assert s.content[o] == s'.content[o];
    }
  }

  /** A byte in the file, written or opened up by a seek, stays until it is written over or cut off. */
  lemma {:induction false} BytesAreStable(a: Access, states: seq<ByteFile>, ops: seq<Op>,
                                          outs: seq<Out>, o: nat)
    requires Trace(a, states, ops, outs) && o < |states[0].content|
    requires forall i :: 0 <= i < |ops| ==> !Touches(states[i], ops[i], outs[i], o)
    ensures o < |states[|ops|].content| && states[|ops|].content[o] == states[0].content[o]
    decreases |ops|
  {
    hide Step, Touches;
    if ops != [] {
      var n := |ops| - 1;
      assert forall i :: 0 <= i < n ==> ops[..n][i] == ops[i] && outs[..n][i] == outs[i];
      assert Trace(a, states[..n + 1], ops[..n], outs[..n]) by {
        forall i | 0 <= i < n
          ensures Step(a, states[..n + 1][i], ops[..n][i], outs[..n][i], states[..n + 1][i + 1])
        {
          assert Step(a, states[i], ops[i], outs[i], states[i + 1]);
        }
      }
      BytesAreStable(a, states[..n + 1], ops[..n], outs[..n], o);
      assert Step(a, states[n], ops[n], outs[n], states[n + 1]);
      StepKeeps(a, states[n], ops[n], outs[n], states[n + 1], o);
    }
  }

  /** What a write stores, a later read at the same place returns, whatever happened elsewhere in between. */
  lemma ReadsBackWrites(a: Access, states: seq<ByteFile>, ops: seq<Op>, outs: seq<Out>)
    requires Trace(a, states, ops, outs) && a.canRead && a.canWrite && |ops| >= 2
    requires ops[0].DoWrite? && ops[|ops| - 1].DoRead? && states[|ops| - 1].pos == states[0].pos
    requires forall i, o :: 0 < i < |ops| - 1 && states[0].pos <= o < states[0].pos + outs[0].count ==>
               !Touches(states[i], ops[i], outs[i], o)
    ensures forall i :: 0 <= i < |outs[|ops| - 1].data| && i < outs[0].count ==>
              i < |ops[0].data| && outs[|ops| - 1].data[i] == ops[0].data[i]
  {
    hide Touches;
    var last := |ops| - 1;
    var p, w, d := states[0].pos, outs[0].count, ops[0].data;
    assert Step(a, states[0], ops[0], outs[0], states[1]);
    assert Step(a, states[last], ops[last], outs[last], states[last + 1]);
    forall o | p <= o < p + w
      ensures o < |states[last].content| && states[last].content[o] == d[o - p]
    {
      WrittenStays(a, states, ops, outs, o);
    }
  }

  lemma WrittenStays(a: Access, states: seq<ByteFile>, ops: seq<Op>, outs: seq<Out>, o: nat)
    requires Trace(a, states, ops, outs) && a.canWrite && |ops| >= 2 && ops[0].DoWrite?
    requires states[0].pos <= o < states[0].pos + outs[0].count
    requires forall i :: 0 < i < |ops| - 1 ==> !Touches(states[i], ops[i], outs[i], o)
    ensures o - states[0].pos < |ops[0].data| && o < |states[|ops| - 1].content|
    ensures states[|ops| - 1].content[o] == ops[0].data[o - states[0].pos]
  {
    hide Touches;
    var last := |ops| - 1;
    assert Step(a, states[0], ops[0], outs[0], states[1]);
    var ss, os, us := states[1..last + 1], ops[1..last], outs[1..last];
    forall i | 0 <= i < |os|
      ensures Step(a, ss[i], os[i], us[i], ss[i + 1]) && !Touches(ss[i], os[i], us[i], o)
    {
      assert Step(a, states[i + 1], ops[i + 1], outs[i + 1], states[i + 2]);
    }
    BytesAreStable(a, ss, os, us, o);
  }

  /** The volume is as it must be for this entry to be opened, the file holding the clusters of chain. */
  ghost predicate Openable(fs: Volume, st: Setting, dirOfs: EntryOfs, chain: seq<nat>)
    reads fs
  {
    && fs.Valid() && st.g == fs.g && SettingOk(st) && fs.g.total == |fs.view|
    && HeapOk(st, fs.Fat(), chain, LdClust(fs.g.kind, fs.view[st.dirSect], dirOfs))
    && |chain| == ClustersFor(st.g, LdSize(fs.view[st.dirSect], dirOfs))
    && ViewOk(st, fs.view) && WindowOk(st, fs.winsect) && CountExact(fs.Fat(), fs.freeClst) && NoOnes(fs.Fat())
  }

  /** Open the file of a directory entry found at an offset of a directory sector. */
  method Open(fs: Volume, canRead: bool, canWrite: bool, dirSect: nat, dirOfs: EntryOfs, ghost st: Setting,
              ghost chain: seq<nat>)
    returns (h: File)
    requires fs.reliable && dirSect == st.dirSect && Openable(fs, st, dirOfs, chain)
    modifies fs
    ensures fresh(h) && h.Good() && h.Saved() && h.fs == fs && h.st == st && h.dirOfs == dirOfs
    ensures h.canRead == canRead && h.canWrite == canWrite && h.fptr == 0 && h.chain == chain
    ensures fs.view == old(fs.view) && h.objsize == LdSize(fs.view[dirSect], dirOfs)
    ensures Clean(st.g, chain, h.image, fs.view) && h.dirData == fs.view[dirSect]
  {
    var res := fs.MoveWindow(dirSect);
    h := new File(fs, canRead, canWrite, LdClust(fs.g.kind, fs.win, dirOfs), LdSize(fs.win, dirOfs), dirSect, dirOfs,
      st, chain);
  }

  /** A closed file can be opened again. */
  lemma ClosedIsOpenable(f: File)
    requires f.Good() && !f.dirty && f.Recorded(f.dirData)
    ensures f.dirSect == f.st.dirSect && Openable(f.fs, f.st, f.dirOfs, f.chain)
    ensures f.fs.view[f.st.dirSect] == f.dirData && LdSize(f.dirData, f.dirOfs) == f.objsize
    ensures Clean(f.st.g, f.chain, f.image, f.fs.view)
  {
    f.CleanHere(1);
  }

  lemma SameImage(g: VolumeGeometry.Geometry, chain: seq<nat>, a: seq<Sector>, b: seq<Sector>, view: seq<Sector>)
    requires Clean(g, chain, a, view) && Clean(g, chain, b, view) && |a| == |b|
    ensures a == b
  {
    forall k | 0 <= k < |a|
      ensures a[k] == b[k]
    {
      assert a[k] == At(view, SectorAt(g, chain, k));
    }
  }

  /** Close a file and open it again from its directory entry: the contents are the same. */
  method CloseAndReopen(f: File) returns (h: File)
    requires f.Good() && f.Saved() && f.fs.reliable
    modifies f, f.fs
    ensures fresh(h) && h.Good() && h.Saved() && h.fs == f.fs && h.st == f.st && h.fptr == 0
    ensures h.canRead == f.canRead && h.canWrite == f.canWrite
    ensures h.Content() == old(f.Content())
    ensures h.dirOfs == f.dirOfs && SameName(old(f.dirData), h.dirData, f.dirOfs)
    ensures LdSize(h.dirData, h.dirOfs) == |h.Content()|
  {
    hide Openable, SameName, File.Grounded, Shows, Clean, BufferOk, SectorAt, ClusterIndex, ClustersFor, Upto,
         File.Recorded, File.OnDisk;
    var res := f.Sync();
    ClosedIsOpenable(f);
    h := Open(f.fs, f.canRead, f.canWrite, f.dirSect, f.dirOfs, f.st, f.chain);
    SameImage(f.st.g, f.chain, f.image, h.image, f.fs.view);
  }

  /** Open, any run of operations, close, open again: what the reference ends with is in the file. */
  method Session(fs: Volume, canRead: bool, canWrite: bool, dirSect: nat, dirOfs: EntryOfs, ghost st: Setting,
                 ghost chain: seq<nat>, ops: seq<Op>)
    returns (outs: seq<Out>, h: File, ghost states: seq<ByteFile>)
    requires fs.reliable && dirSect == st.dirSect && Openable(fs, st, dirOfs, chain)
    requires forall i :: 0 <= i < |ops| ==> Allowed(ops[i])
    modifies fs
    ensures Trace(Access(canRead, canWrite, Room(st)), states, ops, outs)
    ensures |states[0].content| == LdSize(old(fs.view)[dirSect], dirOfs) && states[0].pos == 0
    ensures fresh(h) && h.Good() && h.fs == fs && h.st == st && h.fptr == 0 && h.canRead == canRead
            && h.Content() == states[|ops|].content
    ensures h.dirOfs == dirOfs && SameName(old(fs.view)[dirSect], h.dirData, dirOfs)
    ensures LdSize(h.dirData, dirOfs) == |h.Content()|
  {
    hide File.Good, Openable, Step, File.Saved, Clean, SameName;
    var f := Open(fs, canRead, canWrite, dirSect, dirOfs, st, chain);
    ghost var first := f.dirData;
    outs, states := Run(f, ops);
    ghost var data := f.dirData;
    h := CloseAndReopen(f);
    SameNameTwice(first, data, h.dirData, dirOfs);
  }
}
