/** An open file: cursor, private sector buffer and cluster chain over a mounted volume. */
module OpenFiles {
  import opened Bytes
  import opened VolumeGeometry
  import opened FatEntries
  import opened Chains
  import opened Volumes
  import opened FileLayout
  import opened FileState
  import opened DirEntries

  const MAX_FILE_SIZE: nat := 0xFFFF_FFFF

  function Max(a: nat, b: nat): nat {
    if a < b then b else a
  }

  function Min(a: nat, b: nat): nat {
    if a < b then a else b
  }

  class File {
    const fs: Volume
    const canRead: bool
    const canWrite: bool
    /** Offset of the file's entry in its directory sector. */
    const dirSect: nat
    const dirOfs: EntryOfs
    var err: FResult
    var sclust: nat
    var objsize: nat
    var fptr: nat
    var clust: nat
    var sect: nat
    var buf: Sector
    var dirty: bool
    var modified: bool
    ghost const st: Setting
    /** The cluster chain, and the cluster that holds the buffered sector. */
    ghost var chain: seq<nat>
    ghost var home: nat
    /** What the directory sector holds. */
    ghost var dirData: Sector
    /** The sectors of the file, buffered changes included. */
    ghost var image: seq<Sector>

    /** The volume side: the file's chain is intact and the rest of the volume frozen. */
    ghost predicate Grounded()
      reads `chain, `sclust, `dirData, fs
    {
      && fs.Valid() && st.g == fs.g && SettingOk(st) && dirSect == st.dirSect
      && HeapOk(st, fs.Fat(), chain, sclust)
      && ViewOk(st, fs.view) && WindowOk(st, fs.winsect) && At(fs.view, dirSect) == dirData
      && CountExact(fs.Fat(), fs.freeClst) && NoOnes(fs.Fat())
    }

    /** image is the file's contents, through the buffer. */
    ghost predicate Body()
      reads `chain, `sclust, `objsize, `image, `sect, `buf, `home, `dirty, `dirData, fs
    {
      && Grounded() && st.g == fs.g && st.g.csize > 0
      && |image| == SectorsFor(objsize) && objsize <= MAX_FILE_SIZE
      && Shows(st.g, chain, image, fs.view, sect, buf)
      && BufferOk(st, fs.view, sect, home, buf, dirty)
    }

    /** Moreover the chain holds exactly the clusters of a file of the given size. */
    ghost predicate Core(size: nat)
      reads `chain, `sclust, `objsize, `image, `sect, `buf, `home, `dirty, `dirData, fs
    {
      Body() && objsize <= size && |chain| == ClustersFor(st.g, size)
    }

    ghost predicate Cursor()
      requires st.g.csize > 0
      reads this
    {
      && fptr <= objsize
      && (fptr > 0 ==> ClusterIndex(st.g, fptr - 1) < |chain| && clust == chain[ClusterIndex(st.g, fptr - 1)])
      && (fptr % 512 != 0 ==> sect == SectorAt(st.g, chain, fptr / 512))
    }

    ghost predicate Good()
      reads this, fs
    {
      err == FrOk && Core(objsize) && Cursor()
    }

    /** Unless marked modified, the file has nothing unwritten and its directory entry is up to date. */
    ghost predicate Saved()
      reads `modified, `dirty, `dirData, `sclust, `objsize
    {
      modified || (!dirty && Recorded(dirData))
    }

    /** The file as a byte sequence. */
    ghost function Content(): (b: seq<byte>)
      requires |image| == SectorsFor(objsize)
      reads `image, `objsize
      ensures |b| == objsize
    {
      Upto(image, objsize)
    }

    /** Open the file whose directory entry holds this start cluster and size. */
    constructor (fs: Volume, canRead: bool, canWrite: bool, sclust: nat, objsize: nat,
                 dirSect: nat, dirOfs: EntryOfs, ghost st: Setting, ghost chain: seq<nat>)
      requires dirSect == st.dirSect
      requires fs.Valid() && st.g == fs.g && SettingOk(st)
      requires HeapOk(st, fs.Fat(), chain, sclust)
      requires ViewOk(st, fs.view) && WindowOk(st, fs.winsect)
      requires CountExact(fs.Fat(), fs.freeClst) && NoOnes(fs.Fat())
      requires |chain| == ClustersFor(st.g, objsize) && objsize <= MAX_FILE_SIZE
      ensures Good() && this.fs == fs && this.st == st && this.canRead == canRead && this.canWrite == canWrite
      ensures this.dirSect == dirSect && this.dirOfs == dirOfs
      ensures fptr == 0 && this.objsize == objsize && this.sclust == sclust && this.chain == chain
      ensures !dirty && !modified && Clean(st.g, chain, image, fs.view) && dirData == At(fs.view, dirSect)
    {
      this.fs, this.canRead, this.canWrite := fs, canRead, canWrite;
      this.dirSect, this.dirOfs := dirSect, dirOfs;
      this.sclust, this.objsize := sclust, objsize;
      err, fptr, clust, sect := FrOk, 0, 0, 0;
      buf, dirty, modified := ZeroSector(), false, false;
      this.st, this.chain, home, dirData := st, chain, 0, At(fs.view, dirSect);
      image := OnVolume(st.g, chain, fs.view, SectorsFor(objsize));
      new;
      OpenedShows(st, fs.Fat(), chain, sclust, fs.view, objsize);
    }

    /** Write the buffer back if it is dirty. */
    method Flush() returns (ok: bool)
      requires Body()
      modifies fs`disk, fs`view, `dirty
      ensures ok ==> Body() && !dirty && fs.Fat() == old(fs.Fat())
      ensures fs.reliable ==> ok
      ensures dirty ==> old(dirty)
    {
      hide SettingOk, HeapOk, FatOf, Tracks, Mirrors, CountExact, NoOnes, Shows, ViewOk, WindowOk, Geometry.Layout;
      ok := true;
      if dirty {
        OwnSector(st, fs.winsect, home, sect);
        ok := fs.WriteSector(sect, buf);
        ViewOkWrite(st, old(fs.view), home, sect, fs.view[sect]);
        if ok {
          dirty := false;
          FlushedClean(st.g, chain, image, old(fs.view), sect, buf);
        }
      }
    }

    /** Give up on the file: later operations report the error at once. */
    method Abort(code: FResult) returns (res: FResult)
      requires code != FrOk
      modifies `err
      ensures err == code == res
    {
      err := code;
      res := code;
    }

    /** Put sector s of own cluster c into the buffer, writing back what was there. */
    method LoadBuffer(s: nat, c: nat) returns (ok: bool)
      requires Body() && c in st.own && InCluster(st.g, c, s)
      modifies fs`disk, fs`view, `dirty, `buf, `sect, `home
      ensures ok ==> Body() && sect == s && !dirty && fs.Fat() == old(fs.Fat())
      ensures fs.reliable ==> ok
      ensures dirty ==> old(dirty)
    {
      hide SettingOk, HeapOk, FatOf, Tracks, Mirrors, CountExact, NoOnes, Shows, ViewOk, WindowOk, Geometry.Layout,
           Volume.Fat;
      ok := Flush();
      if !ok {
        return;
      }
      OwnSector(st, fs.winsect, c, s);
      var data: seq<Sector>;
      ok, data := fs.ReadData(s, 1);
      if !ok {
        return;
      }
      Reloaded(st, fs.Fat(), chain, sclust, image, fs.view, sect, buf, s);
      assert data[0] == fs.view[s + 0];
      buf, sect, home := data[0], s, c;
    }

    // ---- Reading -------------------------------------------------------------------------------

    /** At the start of a sector inside the file, make clust the cluster that holds it. */
    method FollowForRead() returns (res: FResult)
      requires Good() && fptr % 512 == 0 && fptr < objsize
      modifies this`err, this`clust, fs`disk, fs`wflag, fs`missed, fs`win, fs`winsect
      ensures res == FrOk ==> err == FrOk && Core(objsize)
      ensures res == FrOk ==> ClusterIndex(st.g, fptr) < |chain| && clust == chain[ClusterIndex(st.g, fptr)]
      ensures fs.reliable ==> res == FrOk
      ensures res != FrOk ==> err == res
    {
      hide FatOf, Tracks, Mirrors, CountExact, NoOnes, Shows, ViewOk, Geometry.Layout, HeapOk, BufferOk, SettingOk;
      IndexMono(st.g, fptr, objsize - 1);
      NextInChain(st, fs.Fat(), chain, sclust, fptr);
      if SectorIndex(fs.g, fptr) == 0 {
        var clst := sclust;
        if fptr > 0 {
          clst := fs.GetFat(clust);
        }
        assert clst >= 2;  // the engine's internal-error exit is never taken
        if clst == DISK_ERROR {
          res := Abort(FrDiskErr);
          return;
        }
        clust := clst;
      }
      res := FrOk;
    }

    /** Read whole sectors, from the start of a sector, straight from the volume. */
    method ReadWhole(cc: nat) returns (ok: bool, chunk: seq<byte>)
      requires Core(objsize) && fptr % 512 == 0 && cc > 0 && fptr + 512 * cc <= objsize
      requires ClusterIndex(st.g, fptr) < |chain| && clust == chain[ClusterIndex(st.g, fptr)]
      requires SectorIndex(fs.g, fptr) + cc <= fs.g.csize
      ensures ok ==> fptr + 512 * cc <= 512 * |image| && chunk == Slice(image, fptr, fptr + 512 * cc)
      ensures fs.reliable ==> ok
    {
      hide FatOf, Tracks, Mirrors, CountExact, NoOnes, ViewOk, Geometry.Layout, HeapOk, SettingOk,
           Shows, BufferOk, Flatten, Overlay, WindowOk;
      ghost var k := fptr / 512;
      var s := fs.ClusterToSector(clust) + SectorIndex(fs.g, fptr);
      RunOfFile(st, fs.Fat(), chain, sclust, fs.winsect, k, cc);
      var data: seq<Sector>;
      ok, data := fs.ReadData(s, cc);
      if !ok {
        return false, [];
      }
      RunShown(st, chain, image, fs.view, sect, home, buf, dirty, data, k);
      data := Overlay(data, s, sect, buf, dirty);
      SliceRun(image, data, k);
      chunk := Flatten(data);
    }

    /** Clusters and buffer are set for the sector at the cursor. */
    ghost predicate AtSector()
      requires st.g.csize > 0
      reads this
    {
      && ClusterIndex(st.g, fptr) < |chain| && clust == chain[ClusterIndex(st.g, fptr)]
      && sect == SectorAt(st.g, chain, fptr / 512)
    }

    /** Read from the buffer up to the end of the sector. */
    method ReadPart(btr: nat) returns (chunk: seq<byte>)
      requires err == FrOk && Core(objsize) && AtSector() && 0 < btr <= objsize - fptr
      modifies `fptr
      ensures Good() && 0 < |chunk| <= btr && fptr == old(fptr) + |chunk|
      ensures fptr <= 512 * |image| && chunk == Slice(image, old(fptr), fptr)
    {
      hide Grounded, BufferOk, SectorAt, Slice, ClusterIndex, ClustersFor, Shows;
      ghost var k := fptr / 512;
      var off := fptr % 512;
      var rcnt := if 512 - off > btr then btr else 512 - off;
      chunk := buf[off..off + rcnt];
      WithinSector(fptr, rcnt);
      ShownInBuffer(st.g, chain, image, fs.view, sect, buf, k);
      SlicePart(image, fptr, rcnt);
      IndexInSector(st.g, fptr, fptr + rcnt - 1);
      fptr := fptr + rcnt;
    }

    /** Clusters are set for the sector that starts at the cursor. */
    ghost predicate AtCluster()
      requires st.g.csize > 0
      reads `fptr, `clust, `chain
    {
      fptr % 512 == 0 && ClusterIndex(st.g, fptr) < |chain| && clust == chain[ClusterIndex(st.g, fptr)]
    }

    /** Read as many whole sectors as the request and the cluster allow. */
    method ReadRun(btr: nat) returns (res: FResult, chunk: seq<byte>)
      requires err == FrOk && Core(objsize) && AtCluster() && 512 <= btr <= objsize - fptr
      modifies `err, `fptr
      ensures res == FrOk ==> Good() && 0 < |chunk| <= btr && fptr == old(fptr) + |chunk|
      ensures res == FrOk ==> fptr <= 512 * |image| && chunk == Slice(image, old(fptr), fptr)
      ensures res != FrOk ==> err == res
      ensures fs.reliable ==> res == FrOk
    {
      hide Grounded, BufferOk, SectorAt, Shows, Slice, ClustersFor, ClusterIndex, RunLength, SectorIndex;
      CursorSector();
      var cc := RunLength(fs.g.csize, SectorIndex(fs.g, fptr), btr);
      var ok: bool;
      ok, chunk := ReadWhole(cc);
      if !ok {
        res := Abort(FrDiskErr);
        return;
      }
      CursorAfterRun(cc);
      fptr := fptr + 512 * cc;
      res := FrOk;
    }

    /** Have the buffer hold the sector that starts at the cursor. */
    method BufferSector() returns (res: FResult)
      requires err == FrOk && Core(objsize) && AtCluster()
      modifies this`err, this`dirty, this`buf, this`sect, this`home, fs`disk, fs`view
      ensures res == FrOk ==> err == FrOk && Core(objsize) && sect == SectorAt(st.g, chain, fptr / 512)
      ensures res != FrOk ==> err == res
      ensures fs.reliable ==> res == FrOk
      ensures dirty ==> old(dirty)
    {
      hide Grounded, BufferOk, SectorAt, Shows, ClustersFor;
      CursorSector();
      assert fs.ClusterToSector(clust) != 0;  // nor is this internal-error exit
      var s := fs.ClusterToSector(clust) + SectorIndex(fs.g, fptr);
      if sect != s {
        var ok := LoadBuffer(s, clust);
        if !ok {
          res := Abort(FrDiskErr);
          return;
        }
      }
      res := FrOk;
    }

    /** One round of the reading loop. */
    method ReadStep(btr: nat) returns (res: FResult, chunk: seq<byte>)
      requires Good() && 0 < btr <= objsize - fptr
      modifies this`err, this`clust, this`fptr, this`dirty, this`buf, this`sect, this`home,
               fs`disk, fs`view, fs`wflag, fs`missed, fs`win, fs`winsect
      ensures res == FrOk ==> Good() && 0 < |chunk| <= btr && fptr == old(fptr) + |chunk|
      ensures res == FrOk ==> fptr <= 512 * |image| && chunk == Slice(image, old(fptr), fptr)
      ensures res != FrOk ==> err == res
      ensures fs.reliable ==> res == FrOk
      ensures dirty ==> old(dirty)
    {
      hide Grounded, BufferOk, SectorAt, Shows, Slice, ClustersFor;
      chunk := [];
      if fptr % 512 == 0 {
        res := FollowForRead();
        if res != FrOk {
          return;
        }
        if btr / 512 > 0 {
          res, chunk := ReadRun(btr);
          return;
        }
        res := BufferSector();
        if res != FrOk {
          return;
        }
      } else {
        IndexInSector(st.g, fptr - 1, fptr);
      }
      chunk := ReadPart(btr);
      res := FrOk;
    }

    /** The cursor's cluster is valid and its sector is where the engine computes it. */
    lemma CursorSector()
      requires Body() && fptr % 512 == 0
      requires ClusterIndex(st.g, fptr) < |chain| && clust == chain[ClusterIndex(st.g, fptr)]
      ensures fs.ClusterToSector(clust) + SectorIndex(fs.g, fptr) == SectorAt(st.g, chain, fptr / 512)
      ensures fs.ClusterToSector(clust) != 0 && clust in st.own
      ensures InCluster(st.g, clust, SectorAt(st.g, chain, fptr / 512))
    {
      hide Shows, BufferOk, SettingOk, HeapOk, WindowOk, ViewOk, Volume.Fat;
      RunOfFile(st, fs.Fat(), chain, sclust, fs.winsect, fptr / 512, 0);
      OwnFileSector(st, fs.Fat(), chain, sclust, fptr / 512);
    }

    lemma CursorAfterRun(cc: nat)
      requires Body() && fptr % 512 == 0 && cc > 0
      requires ClusterIndex(st.g, fptr) < |chain| && SectorIndex(fs.g, fptr) + cc <= fs.g.csize
      ensures ClusterIndex(st.g, fptr + 512 * cc - 1) == ClusterIndex(st.g, fptr)
    {
      hide Shows, BufferOk, SettingOk, HeapOk, WindowOk, ViewOk, Volume.Fat;
      var k := fptr / 512;
      assert (fptr + 512 * cc - 1) / 512 == k + (cc - 1);
      assert k == fs.g.csize * (k / fs.g.csize) + k % fs.g.csize;
      DivIs(k + (cc - 1), k / fs.g.csize, fs.g.csize);
    }

    /** The reading loop. */
    method ReadLoop(btr: nat) returns (res: FResult, data: seq<byte>)
      requires Good() && btr <= objsize - fptr
      modifies this`err, this`clust, this`fptr, this`dirty, this`buf, this`sect, this`home,
               fs`disk, fs`view, fs`wflag, fs`missed, fs`win, fs`winsect
      ensures res == FrOk ==>
              Good() && fptr == old(fptr) + btr <= 512 * |image| && data == Slice(image, old(fptr), fptr)
      ensures res != FrOk ==> err == res
      ensures fs.reliable ==> res == FrOk
      ensures dirty ==> old(dirty)
    {
      hide Grounded, Core, Slice, Cursor;
      CoreSizes();
      data := [];
      res := FrOk;
      var left: nat := btr;
      while left > 0
        invariant res == FrOk && Good() && old(fptr) <= fptr && fptr + left == old(fptr) + btr
        invariant data == Slice(image, old(fptr), fptr) && (dirty ==> old(dirty))
      {
        ghost var p := fptr;
        var chunk: seq<byte>;
        res, chunk := ReadStep(left);
        if res != FrOk {
          return;
        }
        SliceJoin(image, old(fptr), p, fptr);
        data := data + chunk;
        left := left - |chunk|;
      }
    }

    /** Read up to btr bytes at the cursor: exactly the bytes of the file there, short only at its end. */
    method Read(btr: nat) returns (res: FResult, data: seq<byte>)
      requires err == FrOk ==> Good()
      modifies this`err, this`clust, this`fptr, this`dirty, this`buf, this`sect, this`home,
               fs`disk, fs`view, fs`wflag, fs`missed, fs`win, fs`winsect
      ensures old(err) != FrOk ==> res == err == old(err) && data == [] && fptr == old(fptr)
      ensures old(err) == FrOk && !canRead ==> res == FrDenied && Good() && data == [] && fptr == old(fptr)
      ensures old(err) == FrOk && canRead && res == FrOk ==>
                && Good()
                && |data| == Min(btr, objsize - old(fptr)) && fptr == old(fptr) + |data|
                && data == Content()[old(fptr)..fptr]
      ensures old(err) == FrOk && canRead && res != FrOk ==> err == res
      ensures fs.reliable && old(err) == FrOk && canRead ==> res == FrOk
      ensures err == FrOk && old(Saved()) ==> Saved()
    {
      hide Grounded, Slice, Content;
      if err != FrOk {
        return err, [];
      }
      if !canRead {
        return FrDenied, [];
      }
      var remain := objsize - fptr;
      res, data := ReadLoop(if btr > remain then remain else btr);
      if res == FrOk {
        SliceOfContent(old(fptr), fptr);
      }
    }

    lemma CoreSizes()
      requires Core(objsize)
      ensures objsize <= 512 * |image|
    {
      hide Grounded, Shows, BufferOk, ClustersFor;
    }

    lemma SliceOfContent(a: nat, b: nat)
      requires |image| == SectorsFor(objsize) && a <= b <= objsize
      ensures Slice(image, a, b) == Content()[a..b]
    {
      assert Flatten(image)[..objsize][a..b] == Flatten(image)[a..b];
    }

    // ---- Growing -------------------------------------------------------------------------------

    lemma FullRoom()
      requires Grounded() && FreeSet(fs.Fat()) == {}
      ensures Room(st) == ClusterBytes(st.g) * |chain|
    {
      hide FatOf, Tracks, Mirrors, CountExact, NoOnes, ViewOk, HeapOk, SettingOk, FreeSet;
      OwnCount(st, fs.Fat(), chain, sclust);
    }

    /** The file is never longer than the room it has, and no cluster is free exactly when its chain takes all of it. */
    lemma RoomLeft()
      requires Grounded() && st.g.csize > 0 && |chain| == ClustersFor(st.g, objsize)
      ensures objsize <= ClusterBytes(st.g) * |chain| <= Room(st)
      ensures FreeSet(fs.Fat()) == {} ==> ClusterBytes(st.g) * |chain| == Room(st)
    {
      hide FatOf, Tracks, Mirrors, CountExact, NoOnes, ViewOk, HeapOk, SettingOk, FreeSet, ClustersFor;
      OwnCount(st, fs.Fat(), chain, sclust);
      SizeInClusters(st.g, objsize);
      MulMono(|chain|, |st.own|, ClusterBytes(st.g));
    }

    /** Follow the chain from its cluster i, stretching it at its end; i is -1 for a file without a chain.
        Returns 0 if the volume is full. */
    method Stretch(from: nat, ghost i: int) returns (clst: nat)
      requires Body() && -1 <= i < |chain| && (i == -1 <==> chain == []) && from == if i == -1 then 0 else chain[i]
      modifies fs`disk, fs`view, fs`wflag, fs`missed, fs`win, fs`winsect, fs`lastClst, fs`freeClst, fs`fsiDirty,
               `chain, `sclust
      ensures clst != DISK_ERROR ==> Body() && clst != 1
      ensures clst == 0 ==> FreeSet(fs.Fat()) == {} && chain == old(chain) && i == |chain| - 1
      ensures clst != 0 && clst != DISK_ERROR ==> i + 1 < |chain| && clst == chain[i + 1]
      ensures clst != 0 && clst != DISK_ERROR ==>
                chain == if i + 1 < |old(chain)| then old(chain) else old(chain) + [clst]
      ensures fs.reliable ==> clst != DISK_ERROR
      ensures old(sclust) != 0 ==> sclust == old(sclust)
    {
      hide SettingOk, HeapOk, FatOf, Tracks, Mirrors, CountExact, NoOnes, Shows, ViewOk, SameOutsideFat, BufferOk,
           Geometry.Layout, Linked, FreeSet, Preferred, Chain, ClustersOk, Distinct;
      ghost var fat, view := fs.Fat(), fs.view;
      OwnChain(st, fat, chain, sclust);
      if i + 1 < |chain| {
        LinkInside(st, fat, chain, sclust, i);
      } else if i != -1 {
        LastEnds(st, fat, chain, sclust);
      }
      clst := fs.CreateChain(from);
      if clst == DISK_ERROR {
        return;
      }
      FatOpFrame(st, fat, chain, sclust, image, view, fs.view, fs.FatTable(), sect, home, buf, dirty);
      ghost var grown := clst != 0 && i + 1 == |chain|;
      if clst != 0 && sclust == 0 {
        sclust := clst;
      }
      if grown {
        GrownShows(st, fat, chain, old(sclust), image, fs.view, sect, buf, clst, fs.EndMark());
        chain := chain + [clst];
      }
    }

    // ---- Writing -------------------------------------------------------------------------------

    /** At the start of a sector, make clust the cluster that holds it, stretching the chain if the file
        ends there. full reports that no cluster is free. */
    method FollowForWrite() returns (res: FResult, full: bool)
      requires Good() && fptr % 512 == 0
      modifies this`err, this`clust, this`chain, this`sclust,
               fs`disk, fs`view, fs`wflag, fs`missed, fs`win, fs`winsect, fs`lastClst, fs`freeClst, fs`fsiDirty
      ensures res == FrOk && full ==> Good() && fptr == objsize == Room(st) && FreeSet(fs.Fat()) == {}
      ensures res == FrOk && !full ==> err == FrOk && Core(Max(objsize, fptr + 1)) && AtCluster()
      ensures res != FrOk ==> err == res
      ensures fs.reliable ==> res == FrOk
    {
      hide Grounded, Shows, BufferOk, SectorAt, ClusterIndex, ClustersFor, Room, SectorIndex, ClusterBytes;
      full := false;
      res := FrOk;
      SizeAtCursor(st.g, fptr, objsize);
      if SectorIndex(fs.g, fptr) == 0 {
        var clst: nat;
        if fptr == 0 {
          StartCluster();
          clst := sclust;
          if clst == 0 {
            clst := Stretch(0, -1);
          }
        } else {
          clst := Stretch(clust, ClusterIndex(st.g, fptr - 1));
        }
        if clst == 0 {
          AtClusterStart(st.g, fptr);
          RoomLeft();
          return res, true;
        }
        if clst == DISK_ERROR {
          res := Abort(FrDiskErr);
          return;
        }
        clust := clst;
      }
    }

    /** Write cc whole sectors, from the start of a sector, straight to the volume. */
    method WriteWhole(data: seq<byte>, cc: nat) returns (ok: bool)
      requires Body() && AtCluster() && !dirty && cc > 0 && 512 * cc <= |data|
      requires fptr <= objsize && fptr + 512 * cc <= MAX_FILE_SIZE && SectorIndex(fs.g, fptr) + cc <= fs.g.csize
      modifies fs`disk, fs`view, `buf, `image, `objsize
      ensures ok ==> Body() && objsize == Max(old(objsize), fptr + 512 * cc)
      ensures ok ==> Content() == Spliced(old(Content()), fptr, data[..512 * cc])
      ensures fs.reliable ==> ok
    {
      hide FatOf, Tracks, Mirrors, CountExact, NoOnes, ViewOk, Geometry.Layout, HeapOk, SettingOk, Shows, Clean,
           Spliced, Upto, Cut, WindowOk, SectorAt, InCluster, SameOutside, BufferOk, Volume.Fat, Refilled;
      ghost var k := fptr / 512;
      var s := fs.ClusterToSector(clust) + SectorIndex(fs.g, fptr);
      CursorSector();
      RunOfFile(st, fs.Fat(), chain, sclust, fs.winsect, k, cc);
      var part := Cut(data, cc);
      ok := fs.WriteData(s, part);
      if !ok {
        return;
      }
      WholeWritten(st, fs.Fat(), chain, sclust, fs.winsect, image, old(fs.view), fs.view, sect, home, buf, k, part);
      PatchRun(image, objsize, k, data, cc, Max(objsize, fptr + 512 * cc));
      buf := Refilled(sect, buf, s, part);
      image := Spliced(image, k, part);
      objsize := Max(objsize, fptr + 512 * cc);
    }

    /** As many whole sectors as the data and the cluster allow. */
    method WriteRun(data: seq<byte>) returns (res: FResult, n: nat)
      requires err == FrOk && fptr <= objsize && fptr + |data| <= MAX_FILE_SIZE && |data| >= 512
      requires Core(Max(objsize, fptr + 1)) && AtCluster() && !dirty
      modifies fs`disk, fs`view, this`buf, this`image, this`objsize, this`fptr, this`err
      ensures res == FrOk ==> Good() && 0 < n <= |data| && fptr == old(fptr) + n
      ensures res == FrOk ==> Content() == Spliced(old(Content()), old(fptr), data[..n])
      ensures res != FrOk ==> err == res
      ensures fs.reliable ==> res == FrOk
    {
      hide Grounded, Shows, BufferOk, SectorAt, ClusterIndex, ClustersFor, Spliced, Content, RunLength, SectorsFor,
           SectorIndex;
      var cc := RunLength(fs.g.csize, SectorIndex(fs.g, fptr), |data|);
      n := 512 * cc;
      CursorAfterRun(cc);
      SizeAfterWrite(st.g, objsize, fptr, fptr + n);
      var ok := WriteWhole(data, cc);
      if !ok {
        res := Abort(FrDiskErr);
        return;
      }
      fptr := fptr + n;
      res := FrOk;
    }

    /** Make the buffer stand for the sector that starts at the cursor; past the end of the file its
        old contents need not be loaded. */
    method PoiseSector() returns (res: FResult)
      requires err == FrOk && Body() && AtCluster() && !dirty && fptr <= objsize
      modifies this`err, this`buf, this`sect
      ensures res == FrOk ==> err == FrOk && Grounded() && Poised(st.g, chain, image, fs.view, buf, fptr / 512)
      ensures res == FrOk ==> sect == SectorAt(st.g, chain, fptr / 512)
      ensures res != FrOk ==> err == res
      ensures fs.reliable ==> res == FrOk
    {
      hide FatOf, Tracks, Mirrors, CountExact, NoOnes, ViewOk, Geometry.Layout, HeapOk, SettingOk, Shows, Clean, Poised,
           WindowOk, SectorAt, InCluster, BufferOk, Volume.Fat;
      CursorSector();
      ghost var k := fptr / 512;
      var s := fs.ClusterToSector(clust) + SectorIndex(fs.g, fptr);
      if sect == s {
        BufferPoised(st, fs.Fat(), chain, sclust, image, fs.view, sect, buf, k);
      } else {
        CleanHere(s);
        if fptr < objsize {
          OwnSector(st, fs.winsect, clust, s);
          var ok, data := fs.ReadData(s, 1);
          if !ok {
            res := Abort(FrDiskErr);
            return;
          }
          assert data[0] == fs.view[s + 0];
          buf := data[0];
        }
        CleanPoised(st.g, chain, image, fs.view, buf, k);
        sect := s;
      }
      res := FrOk;
    }

    lemma CleanHere(s: nat)
      requires Body() && !dirty && s != 0
      ensures Clean(st.g, chain, image, fs.view)
    {
      hide FatOf, Tracks, Mirrors, CountExact, NoOnes, ViewOk, Geometry.Layout, HeapOk, SettingOk, Shows, Clean,
           WindowOk, SectorAt;
      Reloaded(st, fs.Fat(), chain, sclust, image, fs.view, sect, buf, s);
    }

    /** The buffer stands for the sector at the cursor, ready to be changed. */
    ghost predicate Ready()
      reads this, fs
    {
      && err == FrOk && fptr <= objsize <= MAX_FILE_SIZE
      && Grounded() && st.g == fs.g && st.g.csize > 0 && |image| == SectorsFor(objsize)
      && |chain| == ClustersFor(st.g, Max(objsize, fptr + 1)) && AtSector()
      && Poised(st.g, chain, image, fs.view, buf, fptr / 512)
    }

    /** Change bytes of the buffered sector at the cursor. */
    method StoreInBuffer(data: seq<byte>)
      requires Ready() && 0 < |data| && fptr % 512 + |data| <= 512 && fptr + |data| <= MAX_FILE_SIZE
      modifies `buf, `dirty, `home, `image, `objsize
      ensures Body() && objsize == Max(old(objsize), fptr + |data|)
      ensures Content() == Spliced(old(Content()), fptr, data)
    {
      hide FatOf, Tracks, Mirrors, CountExact, NoOnes, ViewOk, Geometry.Layout, HeapOk, SettingOk, Shows, Clean,
           Spliced, WindowOk, SectorAt, InCluster, BufferOk, Volume.Fat, Upto, Overwritten, Volume.Valid, ClustersFor;
      ghost var k := fptr / 512;
      var b := Overwritten(buf, fptr % 512, data);
      BufferWritten(st, fs.Fat(), chain, sclust, image, fs.view, buf, k, b);
      PatchPart(image, objsize, fptr, buf, data, Max(objsize, fptr + |data|));
      image := Spliced(image, k, [b]);
      home := chain[k / st.g.csize];
      buf, dirty := b, true;
      objsize := Max(objsize, fptr + |data|);
    }

    /** Write into the buffer up to the end of the sector. */
    method WritePart(data: seq<byte>) returns (n: nat)
      requires Ready() && |data| > 0 && fptr + |data| <= MAX_FILE_SIZE
      modifies `buf, `dirty, `home, `image, `objsize, `fptr
      ensures Good() && 0 < n <= |data| && fptr == old(fptr) + n
      ensures Content() == Spliced(old(Content()), old(fptr), data[..n])
    {
      hide Grounded, Shows, BufferOk, SectorAt, ClusterIndex, ClustersFor, Spliced, Content, SectorsFor, Poised;
      var off := fptr % 512;
      n := if 512 - off > |data| then |data| else 512 - off;
      WithinSector(fptr, n);
      IndexInSector(st.g, fptr, fptr + n - 1);
      SizeAfterWrite(st.g, objsize, fptr, fptr + n);
      StoreInBuffer(data[..n]);
      fptr := fptr + n;
    }

    lemma ReadyInside()
      requires Good() && fptr % 512 != 0
      ensures Ready()
    {
      hide FatOf, Tracks, Mirrors, CountExact, NoOnes, ViewOk, Geometry.Layout, HeapOk, SettingOk, Shows, Clean, Poised,
           WindowOk, SectorAt, InCluster, BufferOk, Volume.Fat;
      IndexInSector(st.g, fptr - 1, fptr);
      BufferPoised(st, fs.Fat(), chain, sclust, image, fs.view, sect, buf, fptr / 512);
    }

    /** One round of the writing loop; full reports that it stopped for want of a free cluster. */
    method WriteStep(data: seq<byte>) returns (res: FResult, full: bool, n: nat)
      requires Good() && |data| > 0 && fptr + |data| <= MAX_FILE_SIZE
      modifies this`err, this`sclust, this`objsize, this`fptr, this`clust, this`sect, this`buf, this`dirty,
        this`modified, this`chain, this`home, this`image, fs
      ensures res == FrOk && full ==> Good() && n == 0 && fptr == old(fptr) && Content() == old(Content())
      ensures res == FrOk && full ==> fptr == objsize == Room(st) && FreeSet(fs.Fat()) == {}
      ensures res == FrOk && !full ==> Good() && 0 < n <= |data| && fptr == old(fptr) + n
      ensures res == FrOk && !full ==> Content() == Spliced(old(Content()), old(fptr), data[..n])
      ensures res != FrOk ==> err == res
      ensures fs.reliable ==> res == FrOk
      ensures modified == old(modified)
    {
      hide Grounded, Shows, BufferOk, SectorAt, ClusterIndex, ClustersFor, Spliced, Content, SectorsFor, Poised, Room;
      full, n := false, 0;
      if fptr % 512 == 0 {
        res, full := FollowForWrite();
        if res != FrOk || full {
          return;
        }
        var ok := Flush();
        if !ok {
          res := Abort(FrDiskErr);
          return;
        }
        if |data| / 512 > 0 {
          res, n := WriteRun(data);
          return;
        }
        res := PoiseSector();
        if res != FrOk {
          return;
        }
      } else {
        ReadyInside();
      }
      n := WritePart(data);
      res := FrOk;
    }

    /** The writing loop. */
    method WriteLoop(data: seq<byte>) returns (res: FResult, n: nat)
      requires Good() && fptr + |data| <= MAX_FILE_SIZE
      modifies this`err, this`sclust, this`objsize, this`fptr, this`clust, this`sect, this`buf, this`dirty,
        this`modified, this`chain, this`home, this`image, fs
      ensures res == FrOk ==> Good() && n <= |data| && fptr == old(fptr) + n
      ensures res == FrOk ==> Content() == Spliced(old(Content()), old(fptr), data[..n])
      ensures res == FrOk && n < |data| ==> fptr == Room(st) && FreeSet(fs.Fat()) == {}
      ensures res != FrOk ==> err == res
      ensures fs.reliable ==> res == FrOk
      ensures modified == old(modified)
    {
      hide Grounded, Shows, BufferOk, SectorAt, ClusterIndex, ClustersFor, Spliced, Content, SectorsFor, Room;
      n, res := 0, FrOk;
      NothingWritten(data);
      while n < |data|
        invariant res == FrOk && Good() && n <= |data| && fptr == old(fptr) + n && modified == old(modified)
        invariant |image| == SectorsFor(objsize) && Content() == Spliced(old(Content()), old(fptr), data[..n])
        decreases |data| - n
      {
        var full: bool, m: nat;
        res, full, m := WriteStep(data[n..]);
        if res != FrOk || full {
          return;
        }
        SpliceTwice(old(Content()), old(fptr), data[..n], data[n..][..m]);
        assert data[..n] + data[n..][..m] == data[..n + m];
        n := n + m;
      }
    }

    lemma NothingWritten(data: seq<byte>)
      requires |image| == SectorsFor(objsize) && fptr <= objsize
      ensures Content() == Spliced(Content(), fptr, data[..0])
    {
    }

    lemma WrapsAround(a: nat, b: nat)
      requires a < 0x1_0000_0000 && b < 0x1_0000_0000
      ensures (a + b) % 0x1_0000_0000 < a <==> a + b >= 0x1_0000_0000
    {
    }

    /** Write data at the cursor: all of it, or as much as the 4 GiB limit and the room of the volume allow. */
    method Write(data: seq<byte>) returns (res: FResult, n: nat)
      requires |data| <= 0xFFFF_FFFF && (err == FrOk ==> Good())
      modifies this`err, this`sclust, this`objsize, this`fptr, this`clust, this`sect, this`buf, this`dirty,
        this`modified, this`chain, this`home, this`image, fs
      ensures old(err) != FrOk ==> res == err == old(err) && n == 0 && fptr == old(fptr)
      ensures old(err) == FrOk && !canWrite ==>
              res == FrDenied && Good() && n == 0 && fptr == old(fptr) && Content() == old(Content())
      ensures old(err) == FrOk && canWrite && res == FrOk ==>
                && Good() && modified
                && n <= |data| && fptr == old(fptr) + n
                && Content() == Spliced(old(Content()), old(fptr), data[..n])
                && old(fptr) <= Room(st)
                && n == Min(Min(|data|, MAX_FILE_SIZE - old(fptr)), Room(st) - old(fptr))
                && (n < Min(|data|, MAX_FILE_SIZE - old(fptr)) ==> FreeSet(fs.Fat()) == {})
      ensures old(err) == FrOk && canWrite && res != FrOk ==> err == res
      ensures fs.reliable && old(err) == FrOk && canWrite ==> res == FrOk
      ensures err == FrOk && old(Saved()) ==> Saved()
    {
      hide Grounded, Shows, BufferOk, SectorAt, ClusterIndex, ClustersFor, Spliced, Content, Poised, Room, ClusterBytes;
      n := 0;
      if err != FrOk {
        return err, n;
      }
      if !canWrite {
        return FrDenied, n;
      }
      RoomLeft();
      var btw := |data|;
      WrapsAround(fptr, btw);
      if (fptr + btw) % 0x1_0000_0000 < fptr {
        btw := 0xFFFF_FFFF - fptr;
      }
      res, n := WriteLoop(data[..btw]);
      if res == FrOk {
        assert data[..btw][..n] == data[..n];
        RoomLeft();
        modified := true;
      }
    }

    // ---- Truncating ----------------------------------------------------------------------------

    /** Remove the clusters from position k of the chain on. */
    method RemoveFrom(ghost k: nat, clst: nat, pclst: nat) returns (res: FResult)
      requires Body() && k < |chain| && clst == chain[k] && pclst == (if k == 0 then 0 else chain[k - 1])
      requires fptr <= objsize && k == ClustersFor(st.g, fptr)
      modifies fs, `chain, `sclust, `image, `objsize
      ensures res == FrOk || res == FrDiskErr
      ensures res == FrOk ==> Body() && objsize == fptr && chain == old(chain)[..k] && image <= old(image)
      ensures fs.reliable ==> res == FrOk
    {
      hide FatOf, Tracks, Mirrors, CountExact, NoOnes, ViewOk, Geometry.Layout, HeapOk, SettingOk, Shows, BufferOk,
           SectorAt, InCluster, Released, Trimmed, SameOutsideFat, Chain, Distinct, ClustersOk, ClustersFor;
      ghost var fat, view := fs.Fat(), fs.view;
      CutOk(st, fat, chain, sclust, k, fs.EndMark(), fs.freeClst);
      OwnChain(st, fat, chain, sclust);
      res := fs.RemoveChain(clst, pclst);
      if res != FrOk {
        return;
      }
      FatOpFrame(st, fat, chain, sclust, image, view, fs.view, fs.FatTable(), sect, home, buf, dirty);
      ShowsCut(st, chain, image, fs.view, sect, buf, k, fptr);
      if pclst == 0 {
        sclust := 0;
      }
      chain := chain[..k];
      image := image[..SectorsFor(fptr)];
      objsize := fptr;
    }

    /** The cluster count below the cursor, and how the chain goes on after it. */
    lemma CutPoint()
      requires Good() && fptr < objsize
      ensures ClustersFor(st.g, fptr) <= |chain|
      ensures fptr == 0 ==> ClustersFor(st.g, fptr) == 0 && chain != [] && sclust == chain[0]
      ensures fptr > 0 ==>
                var k := ClustersFor(st.g, fptr);
                && 0 < k && clust == chain[k - 1] && st.g.ValidCluster(clust)
                && (k < |chain| ==> fs.Fat()[clust] == chain[k] && 2 <= chain[k] < st.g.nFatent)
                && (k == |chain| ==> fs.Fat()[clust] >= st.g.nFatent)
      ensures st.g.nFatent < 0x1000_0000
    {
      hide FatOf, Tracks, Mirrors, CountExact, NoOnes, ViewOk, HeapOk, Shows, BufferOk, SectorAt;
      StartCluster();
      if fptr > 0 {
        var k := ClustersFor(st.g, fptr);
        IndexMono(st.g, fptr - 1, objsize - 1);
        if k < |chain| {
          LinkInside(st, fs.Fat(), chain, sclust, k - 1);
        } else {
          LastEnds(st, fs.Fat(), chain, sclust);
        }
      }
    }

    /** Drop the clusters past the cursor and set the size to it. */
    method CutChain() returns (res: FResult)
      requires Good() && fptr < objsize
      modifies fs, `chain, `sclust, `image, `objsize
      ensures res == FrOk || res == FrDiskErr
      ensures res == FrOk ==> Core(fptr) && objsize == fptr && image <= old(image) && chain <= old(chain)
      ensures fs.reliable ==> res == FrOk
    {
      hide Grounded, Shows, BufferOk, SectorAt, SectorsFor, ClusterIndex, ClustersFor;
      CutPoint();
      ghost var k := ClustersFor(st.g, fptr);
      if fptr == 0 {
        res := RemoveFrom(0, sclust, 0);
      } else {
        var ncl := NextEntry();
        if ncl == DISK_ERROR {
          return FrDiskErr;
        }
        if ncl < fs.g.nFatent {
          res := RemoveFrom(k, ncl, clust);
        } else {
          CutImage();
          image := image[..SectorsFor(fptr)];
          objsize := fptr;
          res := FrOk;
        }
      }
    }

    /** The FAT entry of the cursor's cluster. */
    method NextEntry() returns (ncl: nat)
      requires Body() && st.g.ValidCluster(clust)
      modifies fs`disk, fs`wflag, fs`missed, fs`win, fs`winsect
      ensures Body() && (ncl == fs.Fat()[clust] == old(fs.Fat())[clust] || ncl == DISK_ERROR)
      ensures fs.reliable ==> ncl != DISK_ERROR
    {
      hide FatOf, Tracks, Mirrors, CountExact, NoOnes, ViewOk, HeapOk, SettingOk, Shows, BufferOk, SectorAt, InCluster;
      ncl := fs.GetFat(clust);
    }

    lemma CutImage()
      requires Good() && fptr < objsize && ClustersFor(st.g, fptr) == |chain|
      ensures SectorsFor(fptr) <= |image| && Shows(st.g, chain, image[..SectorsFor(fptr)], fs.view, sect, buf)
    {
      hide FatOf, Tracks, Mirrors, CountExact, NoOnes, ViewOk, HeapOk, SettingOk, Shows, BufferOk, SectorAt, InCluster,
           ClustersFor, ClusterIndex, Chain, Distinct, ClustersOk;
      OwnChain(st, fs.Fat(), chain, sclust);
      ShowsCut(st, chain, image, fs.view, sect, buf, |chain|, fptr);
      assert chain[..|chain|] == chain;
    }

    /** Cut the file at the cursor. */
    method Truncate() returns (res: FResult)
      requires err == FrOk ==> Good()
      modifies this`err, this`sclust, this`objsize, this`fptr, this`clust, this`sect, this`buf, this`dirty,
        this`modified, this`chain, this`home, this`image, fs
      ensures old(err) != FrOk ==> res == err == old(err)
      ensures old(err) == FrOk && !canWrite ==>
              res == FrDenied && Good() && fptr == old(fptr) && Content() == old(Content())
      ensures old(err) == FrOk && canWrite && res == FrOk ==>
                && Good() && fptr == old(fptr) && Content() == old(Content())[..fptr]
                && CutAt(old(fs.Fat()), old(chain), fs.Fat(), chain, ClustersFor(st.g, fptr))
                && (modified || fptr == old(objsize))
      ensures old(err) == FrOk && canWrite && res != FrOk ==> err == res
      ensures fs.reliable && old(err) == FrOk && canWrite ==> res == FrOk
      ensures err == FrOk && old(Saved()) ==> Saved()
    {
      hide Grounded, Shows, BufferOk, SectorAt, ClusterIndex, ClustersFor, Upto, HeapOk, CutAt, FatOf, Tracks, Mirrors,
           Volume.Valid;
      if err != FrOk {
        return err;
      }
      if !canWrite {
        return FrDenied;
      }
      res := FrOk;
      Heaped();
      ghost var fat, whole, head := fs.Fat(), chain, sclust;
      if fptr < objsize {
        res := CutChain();
        modified := true;
        if res == FrOk {
          CutContent(old(image), old(objsize), image, fptr);
          CutCursor(old(chain));
          Heaped();
          CutFrees(st, fat, whole, head, fs.Fat(), chain, sclust);
          var ok := Flush();
          if !ok {
            res := FrDiskErr;
          }
        }
        if res != FrOk {
          res := Abort(res);
        }
      } else {
        assert Content()[..fptr] == Content();
        CutFrees(st, fat, whole, head, fat, chain, sclust);
      }
    }

    lemma Heaped()
      requires Grounded()
      ensures fs.Valid() && HeapOk(st, fs.Fat(), chain, sclust)
    {
    }

    static lemma CutContent(image: seq<Sector>, size: nat, shorter: seq<Sector>, p: nat)
      requires p <= size <= 512 * |image| && shorter <= image && p <= 512 * |shorter|
      ensures Upto(shorter, p) == Upto(image, size)[..p]
    {
      forall o | 0 <= o < p
        ensures Upto(shorter, p)[o] == Upto(image, size)[o]
      {
        UptoAt(shorter, p, o);
        UptoAt(image, size, o);
      }
    }

    /** The cursor stays good on a chain cut right after its cluster. */
    lemma CutCursor(longer: seq<nat>)
      requires Core(fptr) && chain <= longer
      requires fptr > 0 ==> ClusterIndex(st.g, fptr - 1) < |longer| && clust == longer[ClusterIndex(st.g, fptr - 1)]
      requires fptr % 512 != 0 ==> sect == SectorAt(st.g, longer, fptr / 512)
      ensures fptr > 0 ==> ClusterIndex(st.g, fptr - 1) < |chain| && clust == chain[ClusterIndex(st.g, fptr - 1)]
      ensures fptr % 512 != 0 ==> sect == SectorAt(st.g, chain, fptr / 512)
    {
      hide FatOf, Tracks, Mirrors, CountExact, NoOnes, ViewOk, HeapOk, SettingOk, Shows, BufferOk, InCluster, Grounded;
      if fptr % 512 != 0 {
        IndexInSector(st.g, fptr - 1, fptr);
      }
    }

    // ---- Seeking -------------------------------------------------------------------------------

    /** Next cluster on the way to a target: stretching the chain in write mode, following it otherwise. */
    method SeekNext(ghost i: nat) returns (clst: nat)
      requires Body() && i < |chain| && clust == chain[i] && (!canWrite ==> i + 1 < |chain|)
      modifies fs`disk, fs`view, fs`wflag, fs`missed, fs`win, fs`winsect, fs`lastClst, fs`freeClst, fs`fsiDirty,
               `chain, `sclust
      ensures clst != DISK_ERROR ==> Body() && clst != 1
      ensures clst == 0 ==> canWrite && FreeSet(fs.Fat()) == {} && chain == old(chain) && i == |chain| - 1
      ensures clst != 0 && clst != DISK_ERROR ==> i + 1 < |chain| && clst == chain[i + 1]
      ensures clst != 0 && clst != DISK_ERROR ==>
                chain == if i + 1 < |old(chain)| then old(chain) else old(chain) + [clst]
      ensures fs.reliable ==> clst != DISK_ERROR
      ensures old(sclust) != 0 ==> sclust == old(sclust)
    {
      hide FatOf, Tracks, Mirrors, CountExact, NoOnes, ViewOk, HeapOk, SettingOk, Shows, BufferOk, SectorAt, InCluster,
           Geometry.Layout;
      if canWrite {
        clst := Stretch(clust, i);
      } else {
        LinkInside(st, fs.Fat(), chain, sclust, i);
        clst := fs.GetFat(clust);
      }
    }

    /** Follow clusters until the target, ofs bytes past the start of cluster i, is at hand. rest is 0 if the
        volume filled up on the way. */
    method SeekLoop(ofs: nat, ghost i0: nat) returns (res: FResult, rest: nat, ghost i: nat)
      requires Body() && i0 < |chain| && clust == chain[i0] && fptr == ClusterBytes(fs.g) * i0 && ofs > 0
      requires |chain| == Max(ClustersFor(st.g, objsize), i0 + 1)
      requires !canWrite ==> fptr + ofs <= objsize
      modifies this`err, this`fptr, this`clust, this`chain, this`sclust,
               fs`disk, fs`view, fs`wflag, fs`missed, fs`win, fs`winsect, fs`lastClst, fs`freeClst, fs`fsiDirty
      ensures res == FrOk ==> Body() && i < |chain| == Max(ClustersFor(st.g, objsize), i + 1) && clust == chain[i]
      ensures res == FrOk && rest > 0 ==>
                rest <= ClusterBytes(fs.g) && fptr == ClusterBytes(fs.g) * i && fptr + rest == old(fptr) + ofs
      ensures res == FrOk && rest == 0 ==>
                fptr == ClusterBytes(fs.g) * i + ClusterBytes(fs.g) < old(fptr) + ofs && i + 1 == |chain|
                  && FreeSet(fs.Fat()) == {}
      ensures res == FrOk ==> err == old(err)
      ensures res != FrOk ==> err == res
      ensures fs.reliable ==> res == FrOk
      ensures old(sclust) != 0 ==> sclust == old(sclust)
    {
      hide Grounded, Shows, BufferOk, SectorAt, ClusterIndex, ClustersFor, SectorsFor, ClusterBytes, FreeSet;
      var bcs := ClusterBytes(fs.g);
      rest, i, res := ofs, i0, FrOk;
      while rest > bcs
        invariant res == FrOk && err == old(err) && (old(sclust) != 0 ==> sclust == old(sclust))
        invariant Body() && i < |chain| == Max(ClustersFor(st.g, objsize), i + 1) && clust == chain[i]
        invariant fptr == bcs * i && rest > 0 && fptr + rest == old(fptr) + ofs
        decreases rest
      {
        SeekProgress(rest, i);
        rest := rest - bcs;
        fptr := fptr + bcs;
        var clst := SeekNext(i);
        if clst == DISK_ERROR {
          res := Abort(FrDiskErr);
          return;
        }
        if clst == 0 {
          rest := 0;
          return;
        }
        clust := clst;
        i := i + 1;
      }
    }

    lemma SeekProgress(rest: nat, i: nat)
      requires Body() && rest > ClusterBytes(fs.g) && i < |chain| == Max(ClustersFor(st.g, objsize), i + 1)
      ensures ClusterBytes(fs.g) > 0
      ensures ClusterBytes(fs.g) * i + rest <= objsize ==> i + 1 < |chain|
      ensures ClusterBytes(fs.g) * i + ClusterBytes(fs.g) == ClusterBytes(fs.g) * (i + 1)
    {
      hide Grounded, Shows, BufferOk, SectorAt;
      var bcs := ClusterBytes(fs.g);
      if bcs * i + rest <= objsize {
        IndexInCluster(st.g, i + 1, 1);
        IndexMono(st.g, bcs * (i + 1), objsize - 1);
      }
    }

    /** Clusters and cursor agree on a position the file may not reach yet. */
    ghost predicate Placed(nsect: nat)
      requires st.g.csize > 0
      reads `fptr, `clust, `chain, `objsize
    {
      && |chain| == ClustersFor(st.g, Max(objsize, fptr))
      && (fptr > 0 ==> ClusterIndex(st.g, fptr - 1) < |chain| && clust == chain[ClusterIndex(st.g, fptr - 1)])
      && (fptr % 512 != 0 ==> nsect == SectorAt(st.g, chain, fptr / 512) && Has(st.g, chain, fptr / 512))
    }

    /** End of a seek inside cluster i, rest bytes on. */
    lemma PlacedAt(i: nat, rest: nat)
      requires Body() && i < |chain| == Max(ClustersFor(st.g, objsize), i + 1) && clust == chain[i]
      requires 0 < rest <= ClusterBytes(fs.g) && fptr == ClusterBytes(fs.g) * i + rest
      ensures Placed(if rest % 512 == 0 then 0 else fs.ClusterToSector(clust) + rest / 512)
    {
      hide FatOf, Tracks, Mirrors, CountExact, NoOnes, ViewOk, HeapOk, SettingOk, Shows, BufferOk, InCluster,
           Volume.Fat, WindowOk, Geometry.Layout, ClusterIndex, ClustersFor, SectorAt, Has, Distinct, Chain, ClustersOk;
      hide ClusterBytes, Geometry.FirstSector, Volume.Valid;
      PlacedSize(st.g, objsize, i, rest);
      OwnChain(st, fs.Fat(), chain, sclust);
      ClustersOkAt(st.g, chain, i);
      WholeClusters(st.g, i, rest);
      if rest % 512 != 0 {
        PlacedSector(st.g, chain, i, rest);
      }
    }

    /** Where a seek starts: the cursor's cluster when the target is not before it, else the first one. */
    method SeekStart(ofs: nat, ifptr: nat) returns (res: FResult, rest: nat, ghost i: nat)
      requires Core(objsize) && ofs > 0 && fptr == 0 && ifptr <= objsize
      requires ifptr > 0 ==> ClusterIndex(st.g, ifptr - 1) < |chain| && clust == chain[ClusterIndex(st.g, ifptr - 1)]
      requires !canWrite ==> ofs <= objsize
      modifies this`err, this`fptr, this`clust, this`chain, this`sclust,
               fs`disk, fs`view, fs`wflag, fs`missed, fs`win, fs`winsect, fs`lastClst, fs`freeClst, fs`fsiDirty
      ensures res == FrOk ==> Body() && err == old(err)
      ensures res == FrOk && rest > 0 ==>
                && i < |chain| == Max(ClustersFor(st.g, objsize), i + 1) && clust == chain[i]
                && fptr == ClusterBytes(fs.g) * i && fptr + rest == ofs
      ensures res == FrOk && rest == 0 ==> fptr == 0 == objsize && chain == [] && FreeSet(fs.Fat()) == {}
      ensures res != FrOk ==> err == res
      ensures fs.reliable ==> res == FrOk
      ensures old(sclust) != 0 ==> sclust == old(sclust)
    {
      hide Grounded, Shows, BufferOk, SectorAt, SectorsFor, ClusterIndex;
      var bcs := ClusterBytes(fs.g);
      res, i, rest := FrOk, 0, ofs;
      StartClusterHere();
      if ifptr > 0 {
        DivIndex(ifptr - 1);
        DivIndex(ofs - 1);
        IndexMono(st.g, ifptr - 1, objsize - 1);
      }
      if ifptr > 0 && (ofs - 1) / bcs >= (ifptr - 1) / bcs {
        i := (ifptr - 1) / bcs;
        fptr := (ifptr - 1) / bcs * bcs;
        MulMono(i, (ofs - 1) / bcs, bcs);
        rest := ofs - fptr;
      } else {
        var clst := sclust;
        if clst == 0 {
          clst := Stretch(0, -1);
          if clst == DISK_ERROR {
            res := Abort(FrDiskErr);
            return;
          }
        }
        clust := clst;
        if clst == 0 {
          rest := 0;
        }
      }
    }

    lemma DivIndex(x: nat)
      requires Body()
      ensures ClusterBytes(fs.g) > 0 && x / ClusterBytes(fs.g) == ClusterIndex(st.g, x)
    {
      DivDiv(x, fs.g.csize);
    }

    lemma StartClusterHere()
      requires Core(objsize)
      ensures chain == [] <==> sclust == 0
      ensures chain != [] ==> sclust == chain[0]
      ensures sclust != DISK_ERROR && ClusterBytes(fs.g) > 0
      ensures chain == [] <==> objsize == 0
    {
      hide Shows, BufferOk;
      StartCluster();
    }

    /** Move cursor and cluster to a positive offset, stretching the chain in write mode. */
    method SeekTo(ofs: nat, ifptr: nat) returns (res: FResult, nsect: nat)
      requires Core(objsize) && ofs > 0 && fptr == 0 && ifptr <= objsize
      requires ifptr > 0 ==> ClusterIndex(st.g, ifptr - 1) < |chain| && clust == chain[ClusterIndex(st.g, ifptr - 1)]
      requires !canWrite ==> ofs <= objsize
      modifies this`err, this`fptr, this`clust, this`chain, this`sclust,
               fs`disk, fs`view, fs`wflag, fs`missed, fs`win, fs`winsect, fs`lastClst, fs`freeClst, fs`fsiDirty
      ensures res == FrOk ==> Body() && err == old(err) && Placed(nsect)
      ensures res == FrOk ==> fptr == ofs || (objsize <= fptr < ofs && fptr == Room(st) && FreeSet(fs.Fat()) == {})
      ensures res != FrOk ==> err == res
      ensures fs.reliable ==> res == FrOk
      ensures old(sclust) != 0 ==> sclust == old(sclust)
    {
      hide Grounded, Shows, BufferOk, SectorAt, SectorsFor, ClusterIndex, ClusterBytes, ClustersFor, Has, FreeSet, Room;
      nsect := 0;
      var rest: nat;
      ghost var i: nat;
      res, rest, i := SeekStart(ofs, ifptr);
      if res != FrOk {
        return;
      }
      if rest == 0 {
        NoClusters();
        FullRoom();
        return;
      }
      res, rest, i := SeekLoop(rest, i);
      if res != FrOk {
        return;
      }
      if rest == 0 {
        FullAt(i);
        FullRoom();
        return;
      }
      fptr := fptr + rest;
      PlacedAt(i, rest);
      if rest % 512 != 0 {
        nsect := fs.ClusterToSector(clust) + rest / 512;
      }
    }

    lemma NoClusters()
      requires st.g.csize > 0
      ensures ClustersFor(st.g, 0) == 0
    {
    }

    /** The volume filled up: the cursor stands at the end of the last cluster. */
    lemma FullAt(i: nat)
      requires Body() && i + 1 == |chain| == Max(ClustersFor(st.g, objsize), i + 1) && clust == chain[i]
      requires fptr == ClusterBytes(fs.g) * i + ClusterBytes(fs.g)
      ensures Placed(0) && objsize <= fptr == ClusterBytes(st.g) * |chain|
    {
      hide FatOf, Tracks, Mirrors, CountExact, NoOnes, ViewOk, HeapOk, SettingOk, Shows, BufferOk, InCluster,
           Volume.Fat, Grounded, SectorAt, Has, Placed, ClusterIndex;
      WholeClusters(st.g, i, ClusterBytes(fs.g));
      WholeClusters(st.g, 1, 0);
      PlacedAt(i, ClusterBytes(fs.g));
      if objsize > fptr {
        IndexInCluster(st.g, i + 1, 1);
        IndexMono(st.g, fptr, objsize - 1);
      }
    }

    /** A cursor past the end makes the file longer; what lies between is unspecified but fixed from now on. */
    method GrowToCursor(nsect: nat)
      requires Body() && Placed(nsect) && fptr <= MAX_FILE_SIZE
      modifies `objsize, `modified, `image
      ensures Core(objsize) && Placed(nsect) && objsize == Max(old(objsize), fptr)
      ensures old(image) <= image && (modified || objsize == old(objsize)) && (old(modified) ==> modified)
    {
      hide Grounded, Shows, BufferOk, SectorAt, ClusterIndex, ClustersFor, Has, TakenOn;
      if fptr > objsize {
        TakenOnShows(st, chain, image, fs.view, sect, buf, fptr);
        image := TakenOn(st.g, chain, image, fs.view, sect, buf, SectorsFor(fptr));
        objsize := fptr;
        modified := true;
      }
    }

    /** Load the sector under a cursor that is not at the start of one. */
    method SeekBuffer(nsect: nat) returns (res: FResult)
      requires err == FrOk && Core(objsize) && Placed(nsect) && fptr <= objsize
      modifies this`err, this`dirty, this`buf, this`sect, this`home, fs`disk, fs`view
      ensures res == FrOk ==> Good() && fs.Fat() == old(fs.Fat())
      ensures res != FrOk ==> err == res
      ensures fs.reliable ==> res == FrOk
      ensures dirty ==> old(dirty)
    {
      hide Grounded, Shows, BufferOk, SectorAt, ClusterIndex, ClustersFor, Has;
      res := FrOk;
      if fptr % 512 != 0 && nsect != sect {
        PlacedOwn(nsect);
        var ok := LoadBuffer(nsect, clust);
        if !ok {
          res := Abort(FrDiskErr);
          return;
        }
      }
    }

    /** Seek to an offset already clipped to what the access mode allows. */
    method SeekClipped(ofs: nat) returns (res: FResult)
      requires Good() && ofs <= MAX_FILE_SIZE && (!canWrite ==> ofs <= objsize)
      modifies this`err, this`sclust, this`objsize, this`fptr, this`clust, this`sect, this`buf, this`dirty,
        this`modified, this`chain, this`home, this`image, fs
      ensures res == FrOk ==> Good() && objsize == Max(old(objsize), fptr) && old(image) <= image
      ensures res == FrOk ==>
                fptr == ofs || (fptr < ofs && fptr == objsize == Room(st) && FreeSet(fs.Fat()) == {})
      ensures res == FrOk ==> modified || (objsize == old(objsize) && sclust == old(sclust))
      ensures res == FrOk ==> (old(modified) ==> modified) && (dirty ==> old(dirty)) && dirData == old(dirData)
      ensures res != FrOk ==> err == res
      ensures fs.reliable ==> res == FrOk
    {
      hide Grounded, Shows, BufferOk, SectorAt, ClusterIndex, ClustersFor, Has, FreeSet, SectorsFor, Room;
      var ifptr, nsect := fptr, 0;
      StartClusterHere();
      fptr := 0;
      if ofs > 0 {
        res, nsect := SeekTo(ofs, ifptr);
        if res != FrOk {
          return;
        }
      }
      GrowToCursor(nsect);
      StartClusterHere();
      res := SeekBuffer(nsect);
    }

    /** Move the cursor. In write mode a target past the end lengthens the file, as far as the volume has room. */
    method Lseek(target: nat) returns (res: FResult)
      requires target <= MAX_FILE_SIZE && (err == FrOk ==> Good())
      modifies this`err, this`sclust, this`objsize, this`fptr, this`clust, this`sect, this`buf, this`dirty,
        this`modified, this`chain, this`home, this`image, fs
      ensures old(err) != FrOk ==> res == err == old(err)
      ensures old(err) == FrOk && res == FrOk ==>
                var goal := if target > old(objsize) && !canWrite then old(objsize) else target;
                && Good() && objsize == Max(old(objsize), fptr)
                && Content()[..old(objsize)] == old(Content())
                && fptr == Min(goal, Room(st)) && (fptr < goal ==> FreeSet(fs.Fat()) == {})
      ensures old(err) == FrOk && res != FrOk ==> err == res
      ensures fs.reliable && old(err) == FrOk ==> res == FrOk
      ensures err == FrOk && old(Saved()) ==> Saved()
    {
      hide Grounded, Shows, BufferOk, SectorAt, ClusterIndex, ClustersFor, Upto, FreeSet, Room, ClusterBytes;
      if err != FrOk {
        return err;
      }
      res := SeekClipped(if target > objsize && !canWrite then objsize else target);
      if res == FrOk {
        PrefixContent(old(image), old(objsize), image, objsize);
        RoomLeft();
      }
    }

    static lemma PrefixContent(image: seq<Sector>, size: nat, longer: seq<Sector>, size': nat)
      requires size <= 512 * |image| && size <= size' <= 512 * |longer| && image <= longer
      ensures Upto(longer, size')[..size] == Upto(image, size)
    {
      CutContent(longer, size', image, size);
    }

    lemma PlacedOwn(nsect: nat)
      requires Body() && Placed(nsect) && fptr % 512 != 0
      ensures clust in st.own && InCluster(st.g, clust, nsect)
    {
      hide FatOf, Tracks, Mirrors, CountExact, NoOnes, ViewOk, HeapOk, SettingOk, Shows, BufferOk, InCluster,
           Volume.Fat, SectorAt, WindowOk;
      OwnFileSector(st, fs.Fat(), chain, sclust, fptr / 512);
      IndexInSector(st.g, fptr - 1, fptr);
    }

    /** Opening for append: put the cursor at the end of the file. */
    method SeekToEnd() returns (res: FResult)
      requires Good() && fptr == 0 && !dirty
      modifies this`fptr, this`clust, this`sect, this`buf, this`home, this`dirty, this`err,
               fs`disk, fs`view, fs`wflag, fs`missed, fs`win, fs`winsect
      ensures res == FrOk ==> Good() && fptr == objsize
      ensures res == FrOk || res == FrDiskErr
      ensures fs.reliable ==> res == FrOk
    {
      hide Grounded, Shows, BufferOk, SectorAt, ClusterIndex, ClustersFor, ClusterBytes, Has, SectorsFor;
      res := FrOk;
      if objsize > 0 {
        fptr := objsize;
        StartClusterHere();
        var rest: nat;
        ghost var i: nat;
        res, rest, i := FollowToEnd();
        if res != FrOk {
          return;
        }
        PlacedAt(i, rest);
        res := SeekBuffer(if rest % 512 == 0 then 0 else fs.ClusterToSector(clust) + rest / 512);
        if res != FrOk {
          res := FrDiskErr;
        }
      }
    }

    /** Follow the whole chain; rest is what the last cluster holds. */
    method FollowToEnd() returns (res: FResult, rest: nat, ghost i: nat)
      requires Core(objsize) && chain != [] && sclust == chain[0] && objsize > 0
      modifies this`clust, fs`disk, fs`wflag, fs`missed, fs`win, fs`winsect
      ensures res == FrOk || res == FrDiskErr
      ensures res == FrOk ==>
                && Core(objsize)
                && i < |chain| == Max(ClustersFor(st.g, objsize), i + 1) && clust == chain[i]
                && 0 < rest <= ClusterBytes(fs.g) && objsize == ClusterBytes(fs.g) * i + rest
      ensures fs.reliable ==> res == FrOk
    {
      hide Grounded, Shows, BufferOk, SectorAt, ClusterIndex, ClustersFor, ClusterBytes, Has, SectorsFor;
      rest, i, res := objsize, 0, FrOk;
      clust := sclust;
      while rest > ClusterBytes(fs.g)
        invariant res == FrOk && Core(objsize)
        invariant i < |chain| && clust == chain[i] && rest > 0 && objsize == ClusterBytes(fs.g) * i + rest
        decreases rest
      {
        SeekProgress(rest, i);
        var clst := NextLink(i);
        if clst == DISK_ERROR {
          return FrDiskErr, rest, i;
        }
        clust := clst;
        rest := rest - ClusterBytes(fs.g);
        i := i + 1;
      }
    }

    /** The link of cluster i, which is not the last of the chain. */
    method NextLink(ghost i: nat) returns (clst: nat)
      requires Body() && i + 1 < |chain| && clust == chain[i]
      modifies fs`disk, fs`wflag, fs`missed, fs`win, fs`winsect
      ensures Body() && fs.Fat() == old(fs.Fat()) && (clst == DISK_ERROR || clst == chain[i + 1])
      ensures fs.reliable ==> clst == chain[i + 1] && clst != DISK_ERROR
    {
      hide FatOf, Tracks, Mirrors, CountExact, NoOnes, ViewOk, HeapOk, SettingOk, Shows, BufferOk, SectorAt, InCluster;
      LinkInside(st, fs.Fat(), chain, sclust, i);
      clst := fs.GetFat(clust);
    }

    // ---- Synchronising -------------------------------------------------------------------------

    /** The disk itself, caches aside, holds the file: its FAT chain, its data and its directory entry. */
    ghost predicate OnDisk()
      requires Grounded()
      reads `chain, `image, `sclust, `objsize, `dirData, fs
    {
      && fs.Settled()
      && FatOf(fs.FatTable(), fs.disk) == fs.Fat()
      && Clean(st.g, chain, image, fs.disk)
      && Recorded(fs.disk[dirSect]) && fs.disk[dirSect] == dirData
    }

    /** The entry in this directory sector names the file's start cluster and size. */
    ghost predicate Recorded(b: Sector)
      reads `sclust, `objsize
    {
      LdClust(fs.g.kind, b, dirOfs) == sclust && LdSize(b, dirOfs) == objsize
    }

    /** Every other entry of the directory sector is as it was. */
    ghost predicate OtherEntriesKept(was: Sector)
      reads `dirData
    {
      forall i :: 0 <= i < 512 && !(dirOfs <= i < dirOfs + 32) ==> dirData[i] == was[i]
    }

    /** Put start cluster and size into the directory entry, through the volume's window. */
    method RecordEntry() returns (res: FResult)
      requires Body()
      modifies fs`disk, fs`wflag, fs`missed, fs`win, fs`winsect, fs`view, `dirData
      ensures res == FrOk || res == FrDiskErr
      ensures res == FrOk ==> Body() && Recorded(dirData) && fs.Fat() == old(fs.Fat())
      ensures res == FrOk ==> OtherEntriesKept(old(dirData)) && SameName(old(dirData), dirData, dirOfs)
      ensures res == FrOk ==> MarkedWritten(old(dirData), dirData, dirOfs)
      ensures fs.reliable ==> res == FrOk
    {
      hide FatOf, Tracks, Mirrors, CountExact, NoOnes, HeapOk, Shows, BufferOk, SectorAt, InCluster, ViewOk,
           SameName, MarkedWritten, LdClust, LdSize, DirEntries.Recorded;
      res := fs.MoveWindow(dirSect);
      if res != FrOk {
        return;
      }
      ghost var view, fat := fs.view, fs.Fat();
      var d := DirEntries.Recorded(fs.g.kind, fs.win, dirOfs, sclust, objsize);
      EntryFits();
      RecordedReads(fs.g.kind, fs.win, dirOfs, sclust, objsize);
      RecordedElsewhere(fs.g.kind, fs.win, dirOfs, sclust, objsize);
      RecordedKeepsName(fs.g.kind, fs.win, dirOfs, sclust, objsize);
      RecordedMarks(fs.g.kind, fs.win, dirOfs, sclust, objsize);
      fs.EditWindow(d);
      dirData := d;
      FatFrame(fs.FatTable(), view, fs.view);
      DirWritten(st, fat, chain, sclust, image, view, d, sect, home, buf, dirty);
    }

    lemma EntryFits()
      requires Grounded()
      ensures sclust < ClusterLimit(fs.g.kind) && MAX_FILE_SIZE < 0x1_0000_0000
    {
      StartCluster();
    }

    /** Write the file's unsaved changes through to the disk. */
    method Sync() returns (res: FResult)
      requires Good()
      modifies this`dirty, this`modified, this`dirData, fs
      ensures res == FrOk ==> Good() && !modified && fs.Fat() == old(fs.Fat()) && (old(Saved()) ==> Saved())
      ensures res == FrOk && old(modified) ==> !dirty && OnDisk() && MarkedWritten(old(dirData), dirData, dirOfs)
      ensures res == FrOk ==> OtherEntriesKept(old(dirData)) && SameName(old(dirData), dirData, dirOfs)
      ensures res == FrOk && old(modified) && fs.g.kind.Fat32? && fs.fsiEnabled ==> !fs.fsiDirty
      ensures res == FrOk || res == FrDiskErr
      ensures fs.reliable ==> res == FrOk && (!old(fs.untold) ==> !fs.untold)
    {
      hide Grounded, FatOf, Tracks, Mirrors, Shows, Clean, BufferOk, SectorAt, ClusterIndex, ClustersFor, Recorded,
           OnDisk, MarkedWritten;
      res := FrOk;
      if modified {
        var ok := Flush();
        if !ok {
          return FrDiskErr;
        }
        res := RecordEntry();
        if res == FrOk {
          res := SettleVolume();
          modified := false;
        }
      }
    }

    /** The last step of a sync: the volume's own caches. */
    method SettleVolume() returns (res: FResult)
      requires Body() && !dirty && Recorded(dirData)
      modifies fs`disk, fs`wflag, fs`missed, fs`win, fs`winsect, fs`fsiDirty, fs`untold
      ensures res == FrOk || res == FrDiskErr
      ensures res == FrOk ==> Body() && OnDisk() && fs.Fat() == old(fs.Fat())
      ensures res == FrOk && fs.g.kind.Fat32? && fs.fsiEnabled ==> !fs.fsiDirty
      ensures fs.reliable ==> res == FrOk && (!old(fs.untold) ==> !fs.untold)
    {
      hide FatOf, Tracks, Mirrors, CountExact, NoOnes, HeapOk, Shows, Clean, BufferOk, SectorAt, ViewOk, Recorded;
      res := fs.SyncFs();
      if res == FrOk {
        CleanHere(1);
        CleanOnDisk(st, fs.Fat(), chain, sclust, image, fs.view, fs.disk);
        fs.FatOnDisk();
      }
    }

    lemma StartCluster()
      requires Grounded()
      ensures chain == [] <==> sclust == 0
      ensures chain != [] ==> sclust == chain[0] && st.g.ValidCluster(sclust)
      ensures st.g.nFatent < 0x1000_0000
    {
      OwnChain(st, fs.Fat(), chain, sclust);
    }
  }
}
