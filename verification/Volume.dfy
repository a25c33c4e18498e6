/** A mounted FAT volume: the drive, the one-sector window that caches it, the packed FAT
    and the cluster allocator. */
module Volumes {
  import opened Bytes
  import opened VolumeGeometry
  import opened FatEntries
  import opened Chains
  import opened FileLayout
  import opened InfoSectors

  datatype FResult = FrOk | FrDiskErr | FrIntErr | FrDenied | FrNoFile | FrExist | FrInvalidName

  const DISK_ERROR: nat := 0xFFFF_FFFF
  const NO_WINDOW: nat := 0xFFFF_FFFF

  /** view is the drive as the engine sees it: the window where it lies, the disk elsewhere. */
  ghost predicate Tracks(g: Geometry, view: seq<Sector>, disk: seq<Sector>, win: Sector, winsect: nat) {
    && |view| == |disk|
    && forall s :: 0 <= s < |disk| && !g.Unchecked(s) ==> view[s] == if s == winsect then win else disk[s]
  }

  /** Sector i of the second FAT equals that of the first. */
  ghost predicate Copied(disk: seq<Sector>, base: nat, size: nat, i: nat)
    requires base + 2 * size <= |disk| && i < size
  {
    disk[base + i] == disk[base + size + i]
  }

  /** The second FAT equals the first, except perhaps at one sector. */
  ghost predicate Mirrors(disk: seq<Sector>, base: nat, size: nat, dirty: int)
    requires base + 2 * size <= |disk|
  {
    forall i :: 0 <= i < size && base + i != dirty ==> Copied(disk, base, size, i)
  }

  /** The disk may change freely under the window and in unchecked sectors. */
  lemma TracksFrame(g: Geometry, view: seq<Sector>, disk: seq<Sector>, disk': seq<Sector>, win: Sector, winsect: nat)
    requires Tracks(g, view, disk, win, winsect) && |disk'| == |disk|
    requires forall s :: 0 <= s < |disk| && s != winsect && !g.Unchecked(s) ==> disk'[s] == disk[s]
    ensures Tracks(g, view, disk', win, winsect)
  {
  }

  /** Writing the dirty FAT sector to both copies leaves them equal. */
  lemma MirrorsAfterCopy(d: seq<Sector>, d': seq<Sector>, base: nat, size: nat, s: nat)
    requires base + 2 * size <= |d| == |d'| && base <= s < base + size
    requires Mirrors(d, base, size, s)
    requires forall r :: 0 <= r < |d| && r != s && r != s + size ==> d'[r] == d[r]
    requires d'[s] == d'[s + size]
    ensures Mirrors(d', base, size, -1)
  {
    forall i | 0 <= i < size
      ensures Copied(d', base, size, i)
    {
      assert base + i != s ==> Copied(d, base, size, i);
    }
  }

  /** A write outside both FATs, or to the dirty FAT sector, keeps the copies equal elsewhere. */
  lemma MirrorsAfterWrite(d: seq<Sector>, d': seq<Sector>, base: nat, size: nat, dirty: int, s: nat)
    requires base + 2 * size <= |d| == |d'|
    requires Mirrors(d, base, size, dirty)
    requires s < base || base + 2 * size <= s || (s == dirty && base <= s < base + size)
    requires forall r :: 0 <= r < |d| && r != s ==> d'[r] == d[r]
    ensures Mirrors(d', base, size, dirty)
  {
    forall i | 0 <= i < size && base + i != dirty
      ensures Copied(d', base, size, i)
    {
      assert Copied(d, base, size, i);
    }
  }

  ghost predicate ZeroRun(view: seq<Sector>, s: nat, n: nat) {
    s + n <= |view| && forall r :: s <= r < s + n ==> view[r] == ZeroSector()
  }

  class Volume {
    const g: Geometry
    /** A drive that never fails a request inside its range. */
    const reliable: bool
    /** The volume has an FSInfo sector the engine may update. */
    const fsiEnabled: bool
    var disk: seq<Sector>
    var win: Sector
    var winsect: nat
    var wflag: bool
    var lastClst: nat
    var freeClst: nat
    var fsiDirty: bool
    /** The drive as the engine sees it; its unchecked sectors mean nothing. */
    ghost var view: seq<Sector>
    /** The two FATs were equal at the mount. */
    ghost const mirrors: bool
    /** Writes to the second FAT that have failed since. */
    ghost var missed: nat
    /** The FSInfo sector was not as known at the mount, or the last write of it has failed. */
    ghost var untold: bool

    /** The second FAT repeats the first: it did at the mount and no write to it has failed since. */
    ghost predicate Mirrored()
      reads `missed
    {
      g.nFats == 2 && mirrors && missed == 0
    }

    /** Unless marked changed, the count and the hint are those on the disk. */
    ghost predicate Told()
      reads `disk, `freeClst, `lastClst, `fsiDirty, `untold
    {
      g.kind.Fat32? && fsiEnabled && !fsiDirty && !untold && g.volbase + 1 < |disk| ==>
        Tells(disk[g.volbase + 1], freeClst, lastClst)
    }

    ghost predicate Valid()
      reads this
    {
      && g.Layout()
      && |view| == |disk| == g.total
      && Tracks(g, view, disk, win, winsect)
      && (!wflag && winsect < g.total && !g.Unchecked(winsect) ==> win == disk[winsect])
      && (wflag ==> winsect < g.total && !g.Unchecked(winsect))
      && (Mirrored() ==> Mirrors(disk, g.fatbase, g.fsize, if wflag then winsect else -1))
      && freeClst <= UNKNOWN && lastClst <= UNKNOWN && Told()
    }

    /** The engine's state right after a mount, with the window on a sector just read. */
    constructor (g: Geometry, reliable: bool, fsiEnabled: bool, disk: seq<Sector>, winsect: nat, freeClst: nat,
                 lastClst: nat)
      requires g.Layout() && |disk| == g.total && winsect < g.total && freeClst <= UNKNOWN && lastClst <= UNKNOWN
      ensures Valid() && view == disk && this.g == g && this.reliable == reliable && this.fsiEnabled == fsiEnabled
      ensures this.disk == disk && this.winsect == winsect && this.freeClst == freeClst && this.lastClst == lastClst
      ensures !wflag && !fsiDirty && missed == 0
      ensures Mirrored() <==> g.nFats == 2 && Mirrors(disk, g.fatbase, g.fsize, -1)
      ensures untold <==> g.kind.Fat32? && fsiEnabled && !Tells(disk[g.volbase + 1], freeClst, lastClst)
    {
      this.g, this.reliable, this.fsiEnabled := g, reliable, fsiEnabled;
      this.disk, this.view, this.win, this.winsect := disk, disk, disk[winsect], winsect;
      this.wflag, this.fsiDirty := false, false;
      this.mirrors, this.missed := g.nFats == 2 && Mirrors(disk, g.fatbase, g.fsize, -1), 0;
      this.freeClst, this.lastClst := freeClst, lastClst;
      this.untold := g.kind.Fat32? && fsiEnabled && !Tells(disk[g.volbase + 1], freeClst, lastClst);
    }

    function FatTable(): Table {
      Table(g.kind, g.nFatent, g.fatbase, g.fsize)
    }

    ghost function Fat(): seq<nat>
      requires Valid()
      reads this
    {
      FatOf(FatTable(), view)
    }

    /** Read one sector of the drive. */
    method DiskRead(sect: nat) returns (ok: bool, data: Sector)
      ensures ok ==> sect < |disk| && data == disk[sect]
      ensures reliable && sect < |disk| ==> ok
    {
      data := *;
      ok := sect < |disk|;
      if ok && !reliable {
        ok := *;
      }
      if ok {
        data := disk[sect];
      }
    }

    /** Write one sector of the drive; after a failure that sector holds anything. */
    method DiskWrite(sect: nat, data: Sector) returns (ok: bool)
      modifies `disk
      ensures |disk| == |old(disk)|
      ensures forall s :: 0 <= s < |disk| && s != sect ==> disk[s] == old(disk)[s]
      ensures ok ==> sect < |disk| && disk[sect] == data
      ensures reliable && sect < |disk| ==> ok
    {
      ok := sect < |disk|;
      if ok && !reliable {
        ok := *;
      }
      if ok {
        disk := disk[sect := data];
      } else if sect < |disk| {
        var junk: Sector := *;
        disk := disk[sect := junk];
      }
    }

    /** Write the window back if it is dirty, and copy a FAT sector to the second FAT. */
    method SyncWindow() returns (res: FResult)
      requires Valid()
      modifies `disk, `wflag, `missed
      ensures Valid() && view == old(view)
      ensures res == FrOk || res == FrDiskErr
      ensures res == FrOk ==> !wflag
      ensures res == FrOk && winsect < g.total && !g.Unchecked(winsect) ==> disk[winsect] == win
      ensures res == FrOk && old(wflag) && g.nFats == 2 && g.InFat(winsect) && missed == old(missed) ==>
                disk[winsect + g.fsize] == win
      ensures missed == old(missed) || missed == old(missed) + 1
      ensures res == FrDiskErr ==> wflag && old(wflag)
      ensures reliable ==> res == FrOk && missed == old(missed)
    {
      res := FrOk;
      if wflag {
        var ok := DiskWrite(winsect, win);
        TracksFrame(g, view, old(disk), disk, win, winsect);
        if ok {
          wflag := false;
          if g.InFat(winsect) && g.nFats == 2 {
            CopyToSecondFat(old(disk));
          } else if Mirrored() {
            MirrorsAfterWrite(old(disk), disk, g.fatbase, g.fsize, winsect, winsect);
          }
        } else {
          if Mirrored() {
            MirrorsAfterWrite(old(disk), disk, g.fatbase, g.fsize, winsect, winsect);
          }
          res := FrDiskErr;
        }
      }
    }

    /** Repeat the FAT sector just written in the second FAT; a failure is ignored. */
    method CopyToSecondFat(ghost before: seq<Sector>)
      requires g.Layout() && |view| == |disk| == g.total && Tracks(g, view, disk, win, winsect) && g.InFat(winsect)
               && g.nFats == 2
      requires !wflag && disk[winsect] == win
      requires |before| == |disk| && forall s :: 0 <= s < |disk| && s != winsect ==> disk[s] == before[s]
      requires Mirrored() ==> Mirrors(before, g.fatbase, g.fsize, winsect)
      requires freeClst <= UNKNOWN && lastClst <= UNKNOWN && Told()
      modifies `disk, `missed
      ensures Valid() && disk[winsect] == win
      ensures missed == old(missed) || missed == old(missed) + 1
      ensures missed == old(missed) ==> disk[winsect + g.fsize] == win
      ensures reliable ==> missed == old(missed)
    {
      hide Tracks, Mirrors;
      var copied := DiskWrite(winsect + g.fsize, win);
      TracksFrame(g, view, old(disk), disk, win, winsect);
      if copied {
        if Mirrored() {
          MirrorsAfterCopy(before, disk, g.fatbase, g.fsize, winsect);
        }
      } else {
        missed := missed + 1;
      }
    }

    /** Bring a sector into the window. */
    method MoveWindow(sect: nat) returns (res: FResult)
      requires Valid()
      modifies `disk, `wflag, `missed, `win, `winsect
      ensures Valid() && view == old(view)
      ensures res == FrOk || res == FrDiskErr
      ensures res == FrOk ==> winsect == sect
      ensures res == FrOk && sect < g.total && !g.Unchecked(sect) ==> win == view[sect]
      ensures res == FrDiskErr ==> winsect == NO_WINDOW || (winsect == old(winsect) && win == old(win) && wflag)
      ensures missed >= old(missed)
      ensures reliable ==> missed == old(missed) && (sect < g.total ==> res == FrOk)
    {
      res := FrOk;
      if sect != winsect {
        res := SyncWindow();
        if res == FrOk {
          var ok, data := DiskRead(sect);
          win := data;
          if ok {
            winsect := sect;
          } else {
            winsect := NO_WINDOW;
            res := FrDiskErr;
          }
        }
      }
    }

    /** Change the sector in the window and mark it dirty. */
    method EditWindow(data: Sector)
      requires Valid() && winsect < g.total && !g.Unchecked(winsect)
      modifies `win, `wflag, `view
      ensures Valid() && win == data && wflag
      ensures view == old(view)[winsect := data]
    {
      win := data;
      wflag := true;
      view := view[winsect := data];
    }

    // ---- FAT entries ---------------------------------------------------------------------------

    /** The window is where it was, in the FAT, or invalid. */
    twostate predicate WindowStays()
      reads this
    {
      winsect == old(winsect) || winsect < g.database || winsect == NO_WINDOW
    }

    /** Bring sector i of the first FAT into the window. */
    method MoveToFat(i: nat) returns (ok: bool)
      requires Valid() && i < g.fsize
      modifies `disk, `wflag, `missed, `win, `winsect
      ensures Valid() && view == old(view) && WindowStays()
      ensures ok ==> winsect == g.fatbase + i && winsect < g.database && !g.Unchecked(winsect) && win == view[winsect]
      ensures missed >= old(missed)
      ensures reliable ==> ok && missed == old(missed)
    {
      var res := MoveWindow(g.fatbase + i);
      ok := res == FrOk;
    }

    /** Value of an entry; 1 for a cluster out of range, all ones on a disk error. */
    method GetFat(clst: nat) returns (val: nat)
      requires Valid()
      modifies `disk, `wflag, `missed, `win, `winsect
      ensures Valid() && view == old(view) && WindowStays()
      ensures !g.ValidCluster(clst) ==> val == 1
      ensures g.ValidCluster(clst) ==> val == Fat()[clst] || val == DISK_ERROR
      ensures reliable ==> missed == old(missed) && (g.ValidCluster(clst) ==> val == Fat()[clst])
    {
      hide Tracks, Mirrors, Told;
      val := 1;
      if g.ValidCluster(clst) {
        var ok: bool;
        match g.kind
        case Fat12 => val := GetFat12(clst);
        case Fat16 =>
          ok := MoveToFat(clst / 256);
          Pos16(clst);
          val := if ok then LdWord(win, clst * 2 % 512) else DISK_ERROR;
        case Fat32 =>
          ok := MoveToFat(clst / 128);
          Pos32(clst);
          val := if ok then LdDword(win, clst * 4 % 512) % 0x1000_0000 else DISK_ERROR;
      }
    }

    lemma Pos16(c: nat)
      ensures c * 2 % 512 == c % 256 * 2
    {
    }

    lemma Pos32(c: nat)
      ensures c * 4 % 512 == c % 128 * 4
    {
    }

    lemma Offset12Fits(c: nat)
      requires g.Layout() && g.kind.Fat12? && g.ValidCluster(c)
      ensures Offset12(c) / 512 < g.fsize && (Offset12(c) + 1) / 512 < g.fsize
    {
    }

    /** Byte k of the first FAT, with its sector in the window. */
    method LoadFatByte(k: nat) returns (ok: bool, b: byte)
      requires Valid() && k / 512 < g.fsize
      modifies `disk, `wflag, `missed, `win, `winsect
      ensures Valid() && view == old(view) && WindowStays()
      ensures ok ==> winsect == g.fatbase + k / 512 && b == FatByte(FatTable(), view, k)
      ensures missed >= old(missed)
      ensures reliable ==> ok && missed == old(missed)
    {
      ok := MoveToFat(k / 512);
      b := win[k % 512];
    }

    /** Change byte k of the first FAT, whose sector is in the window. */
    method StoreFatByte(k: nat, x: byte)
      requires Valid() && k / 512 < g.fsize && winsect == g.fatbase + k / 512
      modifies `win, `wflag, `view
      ensures Valid()
      ensures view == SetFatByte(FatTable(), old(view), k, x)
    {
      EditWindow(win[k % 512 := x]);
    }

    method GetFat12(clst: nat) returns (val: nat)
      requires Valid() && g.kind.Fat12? && g.ValidCluster(clst)
      modifies `disk, `wflag, `missed, `win, `winsect
      ensures Valid() && view == old(view) && WindowStays()
      ensures val == Fat()[clst] || val == DISK_ERROR
      ensures reliable ==> missed == old(missed) && val == Fat()[clst]
    {
      hide Tracks, Mirrors, Told;
      Offset12Fits(clst);
      var bc := clst + clst / 2;
      var ok, first := LoadFatByte(bc);
      if !ok {
        return DISK_ERROR;
      }
      var second: byte;
      ok, second := LoadFatByte(bc + 1);
      val := if ok then Get12(clst, first, second) else DISK_ERROR;
    }

    /** Store an entry through the window. A disk error can leave at most that entry half stored. */
    method PutFat(clst: nat, val: nat) returns (res: FResult)
      requires Valid()
      modifies `disk, `wflag, `missed, `win, `winsect, `view
      ensures Valid() && WindowStays()
      ensures !g.ValidCluster(clst) ==> res == FrIntErr && view == old(view)
      ensures g.ValidCluster(clst) ==> res == FrOk || res == FrDiskErr
      ensures g.ValidCluster(clst) && res == FrOk ==> Fat() == old(Fat())[clst := val % g.kind.EntryLimit()]
      ensures SameExcept(old(Fat()), Fat(), clst)
      ensures SameOutsideFat(FatTable(), old(view), view)
      ensures missed >= old(missed)
      ensures reliable ==> missed == old(missed) && (g.ValidCluster(clst) ==> res == FrOk)
    {
      hide Tracks, Mirrors, Told, SetFatByte, Put12, Put16, Put32, FatOf;
      if !g.ValidCluster(clst) {
        return FrIntErr;
      }
      match g.kind {
        case Fat12 => res := PutFat12(clst, val);
        case Fat16 => res := PutFat16(clst, val);
        case Fat32 => res := PutFat32(clst, val);
      }
      PutEntryFrame(FatTable(), old(view), clst, val);
      if res == FrOk {
        PutEntryIsMapUpdate(FatTable(), old(view), clst, val);
      } else if view != old(view) {
        PutHalf12KeepsOthers(FatTable(), old(view), clst, val);
      }
    }

    method PutFat12(clst: nat, val: nat) returns (res: FResult)
      requires Valid() && g.kind.Fat12? && g.ValidCluster(clst)
      modifies `disk, `wflag, `missed, `win, `winsect, `view
      ensures Valid() && WindowStays()
      ensures res == FrOk || res == FrDiskErr
      ensures res == FrOk ==> view == Put12(FatTable(), old(view), clst, val)
      ensures res == FrDiskErr ==> view == old(view) || view == PutHalf12(FatTable(), old(view), clst, val)
      ensures missed >= old(missed)
      ensures reliable ==> missed == old(missed) && res == FrOk
    {
      hide Tracks, Mirrors, Told, SetFatByte;
      Offset12Fits(clst);
      var bc := clst + clst / 2;
      var ok, b := LoadFatByte(bc);
      if !ok {
        return FrDiskErr;
      }
      StoreFatByte(bc, First12(clst, b, val));
      ok, b := LoadFatByte(bc + 1);
      if !ok {
        return FrDiskErr;
      }
      StoreFatByte(bc + 1, Second12(clst, b, val));
      res := FrOk;
    }

    method PutFat16(clst: nat, val: nat) returns (res: FResult)
      requires Valid() && g.kind.Fat16? && g.ValidCluster(clst)
      modifies `disk, `wflag, `missed, `win, `winsect, `view
      ensures Valid() && WindowStays()
      ensures res == FrOk || (res == FrDiskErr && view == old(view))
      ensures res == FrOk ==> view == Put16(FatTable(), old(view), clst, val)
      ensures missed >= old(missed)
      ensures reliable ==> missed == old(missed) && res == FrOk
    {
      var ok := MoveToFat(clst / 256);
      if !ok {
        return FrDiskErr;
      }
      Pos16(clst);
      EditWindow(StWord(win, clst * 2 % 512, val % 0x1_0000));
      res := FrOk;
    }

    method PutFat32(clst: nat, val: nat) returns (res: FResult)
      requires Valid() && g.kind.Fat32? && g.ValidCluster(clst)
      modifies `disk, `wflag, `missed, `win, `winsect, `view
      ensures Valid() && WindowStays()
      ensures res == FrOk || (res == FrDiskErr && view == old(view))
      ensures res == FrOk ==> view == Put32(FatTable(), old(view), clst, val)
      ensures missed >= old(missed)
      ensures reliable ==> missed == old(missed) && res == FrOk
    {
      var ok := MoveToFat(clst / 128);
      if !ok {
        return FrDiskErr;
      }
      Pos32(clst);
      EditWindow(StDword(win, clst * 4 % 512, Merged32(LdDword(win, clst * 4 % 512), val)));
      res := FrOk;
    }

    // ---- Cluster chains ------------------------------------------------------------------------

    /** The value the engine writes to end a chain. */
    function EndMark(): (e: nat)
      ensures e == 0xFFFF_FFFF % g.kind.EntryLimit()
      ensures g.Layout() ==> e >= g.nFatent
    {
      g.kind.EntryLimit() - 1
    }

    /** An unknown free count is left alone, and a known one stays in range. */
    ghost predicate StillKnown(was: nat)
      reads `freeClst
    {
      if was > g.nFatent - 2 then freeClst == was else freeClst <= g.nFatent - 2
    }

    /** Free the chain from clst on, after ending it at pclst unless that is 0. */
    method RemoveChain(clst: nat, pclst: nat) returns (res: FResult)
      requires Valid()
      modifies `disk, `wflag, `missed, `win, `winsect, `view, `freeClst, `fsiDirty
      ensures Valid() && WindowStays() && SameOutsideFat(FatTable(), old(view), view)
      ensures !g.ValidCluster(clst) || !(pclst == 0 || g.ValidCluster(pclst)) ==>
                res == FrIntErr && view == old(view) && freeClst == old(freeClst)
      ensures g.ValidCluster(clst) && (pclst == 0 || g.ValidCluster(pclst)) && res != FrDiskErr ==>
                var f := if pclst == 0 then old(Fat()) else old(Fat())[pclst := EndMark()];
                && Walk(Fat(), res == FrOk) == Released(f, clst)
                && (CountExact(f, old(freeClst)) ==> CountExact(Fat(), freeClst))
      ensures res == FrOk || res == FrIntErr || res == FrDiskErr
      ensures reliable ==> res != FrDiskErr && missed == old(missed)
      ensures StillKnown(old(freeClst))
    {
      hide Tracks, Mirrors, Told, FatOf;
      if !g.ValidCluster(clst) {
        return FrIntErr;
      }
      if pclst != 0 {
        res := PutFat(pclst, 0xFFFF_FFFF);
        if res != FrOk {
          return;
        }
      }
      res := ReleaseFrom(clst);
    }

    /** Free one cluster of a chain and count it. nxt is its old entry, or an error code of GetFat. */
    method ReleaseOne(cur: nat) returns (nxt: nat)
      requires Valid() && g.ValidCluster(cur)
      modifies `disk, `wflag, `missed, `win, `winsect, `view, `freeClst, `fsiDirty
      ensures Valid() && WindowStays() && SameOutsideFat(FatTable(), old(view), view)
      ensures nxt == DISK_ERROR || nxt == old(Fat())[cur]
      ensures nxt != DISK_ERROR ==> Fat() == if nxt < 2 then old(Fat()) else old(Fat())[cur := 0]
      ensures nxt != DISK_ERROR && CountExact(old(Fat()), old(freeClst)) ==> CountExact(Fat(), freeClst)
      ensures reliable ==> nxt != DISK_ERROR && missed == old(missed)
      ensures StillKnown(old(freeClst))
    {
      hide Tracks, Mirrors, Told, FatOf, CountExact, SameExcept, Geometry.Layout, FreeSet, SameOutsideFat;
      SameAsItself(FatTable(), view);
      nxt := GetFat(cur);
      if nxt < 2 || nxt == DISK_ERROR {
        return;
      }
      var res := PutFat(cur, 0);
      if res != FrOk {
        return DISK_ERROR;
      }
      if CountExact(old(Fat()), freeClst) {
        CountRelease(old(Fat()), cur, freeClst);
      }
      CountFreed();
    }

    /** Count one more free cluster, if the count is known. */
    method CountFreed()
      requires Valid()
      modifies `freeClst, `fsiDirty
      ensures Valid() && freeClst == if old(freeClst) < g.nFatent - 2 then old(freeClst) + 1 else old(freeClst)
    {
      hide Tracks, Mirrors;
      if freeClst < g.nFatent - 2 {
        freeClst := freeClst + 1;
        fsiDirty := true;
      }
    }

    /** Free clusters along the links. Nothing is assumed of the table: it may even be cyclic. */
    method ReleaseFrom(clst: nat) returns (res: FResult)
      requires Valid() && g.ValidCluster(clst)
      modifies `disk, `wflag, `missed, `win, `winsect, `view, `freeClst, `fsiDirty
      ensures Valid() && WindowStays() && SameOutsideFat(FatTable(), old(view), view)
      ensures res != FrDiskErr ==>
                && Walk(Fat(), res == FrOk) == Released(old(Fat()), clst)
                && (CountExact(old(Fat()), old(freeClst)) ==> CountExact(Fat(), freeClst))
      ensures res == FrOk || res == FrIntErr || res == FrDiskErr
      ensures reliable ==> res != FrDiskErr && missed == old(missed)
      ensures StillKnown(old(freeClst))
    {
      hide Tracks, Mirrors, Told, FatOf, CountExact;
      var cur: nat := clst;
      while true
        invariant Valid() && WindowStays() && SameOutsideFat(FatTable(), old(view), view)
        invariant g.ValidCluster(cur)
        invariant Released(Fat(), cur) == Released(old(Fat()), clst)
        invariant CountExact(old(Fat()), old(freeClst)) ==> CountExact(Fat(), freeClst)
        invariant reliable ==> missed == old(missed)
        invariant StillKnown(old(freeClst))
        decreases Used(Fat())
      {
        ghost var f := Fat();
        var nxt := ReleaseOne(cur);
        if nxt == 0 {
          return FrOk;
        }
        if nxt == 1 {
          return FrIntErr;
        }
        if nxt == DISK_ERROR {
          return FrDiskErr;
        }
        assert cur in Used(f) && cur !in Used(f[cur := 0]) && Used(f[cur := 0]) <= Used(f);
        if nxt >= g.nFatent {
          return FrOk;
        }
        cur := nxt;
      }
    }

    /** Look for a free cluster upwards from scl + 1 and round to scl; 0 if there is none. No cluster is looked at
        twice. */
    method FindFree(scl: nat) returns (ncl: nat, ghost looks: nat)
      requires Valid() && 1 <= scl < g.nFatent
      modifies `disk, `wflag, `missed, `win, `winsect
      ensures Valid() && view == old(view) && WindowStays()
      ensures ncl == 0 ==> FreeSet(Fat()) == {}
      ensures ncl == 1 ==> !NoOnes(Fat())
      ensures ncl > 1 && ncl != DISK_ERROR ==> FirstFree(Fat(), scl, ncl)
      ensures looks <= g.nFatent - 2
      ensures reliable ==> ncl != DISK_ERROR && missed == old(missed)
    {
      hide Tracks, Mirrors, Told, FatOf, MetNone, FirstFree, FreeSet, NoOnes;
      ghost var f := Fat();
      ghost var wrapped := false;
      ncl, looks := scl, 0;
      NothingMet(f, scl);
      while true
        invariant Valid() && view == old(view) && WindowStays() && Fat() == f
        invariant if wrapped then 2 <= ncl < scl else scl <= ncl < g.nFatent
        invariant looks == if wrapped then g.nFatent - 2 - scl + ncl else ncl - scl
        invariant MetNone(f, scl, ncl, wrapped)
        invariant reliable ==> missed == old(missed)
        decreases !wrapped, g.nFatent - ncl
      {
        ncl := ncl + 1;
        if ncl >= g.nFatent {
          ncl := 2;
          if ncl > scl {
            MetAll(f, scl);
            return 0, looks;
          }
          MeetRound(f, scl);
          wrapped := true;
        }
        var cs := GetFat(ncl);
        looks := looks + 1;
        if cs == 0 {
          MetFirst(f, scl, ncl, wrapped);
          return;
        }
        if cs == 1 || cs == DISK_ERROR {
          SawOne(f, ncl);
          return cs, looks;
        }
        MeetNext(f, scl, ncl, wrapped);
        if ncl == scl {
          MetAll(f, scl);
          return 0, looks;
        }
      }
    }

    static lemma NothingMet(f: seq<nat>, scl: nat)
      requires scl < |f|
      ensures MetNone(f, scl, scl, false)
    {
    }

    static lemma SawOne(f: seq<nat>, c: nat)
      requires 2 <= c < |f|
      ensures f[c] == 1 ==> !NoOnes(f)
    {
    }

    /** The cluster to allocate: the one after the tail being stretched, or the first free from the hint. */
    method PickCluster(clst: nat) returns (ncl: nat)
      requires Valid() && (clst == 0 || g.ValidCluster(clst))
      modifies `disk, `wflag, `missed, `win, `winsect
      ensures Valid() && view == old(view) && WindowStays()
      ensures ncl == 0 ==> FreeSet(Fat()) == {}
      ensures ncl == 1 ==> !NoOnes(Fat())
      ensures ncl > 1 && ncl != DISK_ERROR ==> ncl in FreeSet(Fat()) && Preferred(Fat(), clst, lastClst, ncl)
      ensures reliable ==> ncl != DISK_ERROR && missed == old(missed)
    {
      hide Tracks, Mirrors, Told, FatOf;
      var scl: nat;
      if clst == 0 {
        scl := lastClst;
        if scl == 0 || scl >= g.nFatent {
          scl := 1;
        }
      } else {
        scl := clst;
        ncl := scl + 1;
        if ncl >= g.nFatent {
          ncl := 2;
        }
        var cs := GetFat(ncl);
        if cs == 1 || cs == DISK_ERROR {
          return cs;
        }
        if cs == 0 {
          return;
        }
        if 2 <= lastClst < g.nFatent {
          scl := lastClst;
        }
      }
      ghost var looks;
      ncl, looks := FindFree(scl);
    }

    lemma SmallEntries(v: nat)
      requires g.Layout() && v < g.nFatent
      ensures v % g.kind.EntryLimit() == v
    {
    }

    /** End a chain at a free cluster and link it from clst. */
    method LinkCluster(clst: nat, ncl: nat) returns (res: FResult)
      requires Valid() && (clst == 0 || g.ValidCluster(clst)) && g.ValidCluster(ncl)
      modifies `disk, `wflag, `missed, `win, `winsect, `view
      ensures Valid() && WindowStays() && SameOutsideFat(FatTable(), old(view), view)
      ensures res == FrOk || res == FrDiskErr
      ensures res == FrOk ==> Fat() == Linked(old(Fat()), clst, ncl, EndMark())
      ensures reliable ==> res == FrOk && missed == old(missed)
    {
      hide Tracks, Mirrors, Told, FatOf, SameExcept;
      res := PutFat(ncl, 0xFFFF_FFFF);
      if res == FrOk && clst != 0 {
        SmallEntries(ncl);
        res := PutFat(clst, ncl);
      }
    }

    /** Record a newly taken cluster: end mark, link from clst, hint and count. */
    method TakeCluster(clst: nat, ncl: nat) returns (r: nat)
      requires Valid() && (clst == 0 || g.ValidCluster(clst)) && g.ValidCluster(ncl) && freeClst != 0
      modifies `disk, `wflag, `missed, `win, `winsect, `view, `lastClst, `freeClst, `fsiDirty
      ensures Valid() && WindowStays() && SameOutsideFat(FatTable(), old(view), view)
      ensures r == DISK_ERROR || r == ncl
      ensures r == ncl ==> Fat() == Linked(old(Fat()), clst, ncl, EndMark()) && lastClst == ncl
      ensures r == ncl ==> freeClst == if old(freeClst) <= g.nFatent - 2 then old(freeClst) - 1 else old(freeClst)
      ensures reliable ==> r == ncl && missed == old(missed)
    {
      hide Tracks, Mirrors, FatOf, Linked, SameOutsideFat;
      var res := LinkCluster(clst, ncl);
      if res != FrOk {
        return DISK_ERROR;
      }
      lastClst := ncl;
      if freeClst <= g.nFatent - 2 {
        freeClst := freeClst - 1;
      }
      fsiDirty := true;
      r := ncl;
    }

    /** clst is the end of a chain, or 0 asks for a new one. */
    ghost predicate WantsCluster(clst: nat)
      requires Valid()
      reads this
    {
      clst == 0 || (g.ValidCluster(clst) && Fat()[clst] >= g.nFatent)
    }

    /** Stretch the chain ending at clst by one cluster, or start a chain if clst is 0. Returns the next
        or new cluster, 0 if the volume is full, 1 on an internal error, all ones on a disk error. */
    method CreateChain(clst: nat) returns (r: nat)
      requires Valid()
      modifies `disk, `wflag, `missed, `win, `winsect, `view, `lastClst, `freeClst, `fsiDirty
      ensures Valid() && WindowStays() && SameOutsideFat(FatTable(), old(view), view)
      ensures clst != 0 && !g.ValidCluster(clst) ==> r == 1
      ensures g.ValidCluster(clst) && old(Fat())[clst] < 2 ==> r == 1 || r == DISK_ERROR
      ensures g.ValidCluster(clst) && 2 <= old(Fat())[clst] < g.nFatent ==> r == old(Fat())[clst] || r == DISK_ERROR
      ensures !(r > 1 && old(WantsCluster(clst))) ==>
                view == old(view) && freeClst == old(freeClst) && lastClst == old(lastClst)
      ensures r == 0 ==> old(freeClst) == 0 || FreeSet(old(Fat())) == {}
      ensures r == 1 && old(WantsCluster(clst)) ==> !NoOnes(old(Fat()))
      ensures r > 1 && r != DISK_ERROR && old(WantsCluster(clst)) ==>
                && r in FreeSet(old(Fat())) && Preferred(old(Fat()), clst, old(lastClst), r)
                && Fat() == Linked(old(Fat()), clst, r, EndMark()) && lastClst == r
                && old(freeClst) > 0
                && freeClst == if old(freeClst) <= g.nFatent - 2 then old(freeClst) - 1 else old(freeClst)
      ensures CountExact(old(Fat()), old(freeClst)) && r != DISK_ERROR ==> CountExact(Fat(), freeClst)
      ensures NoOnes(old(Fat())) && r != DISK_ERROR ==> NoOnes(Fat())
      ensures CountExact(old(Fat()), old(freeClst)) && old(WantsCluster(clst)) && r != 1 && r != DISK_ERROR ==>
                (r == 0 <==> FreeSet(old(Fat())) == {})
      ensures reliable ==> r != DISK_ERROR && missed == old(missed)
    {
      hide Tracks, Mirrors, Told, FatOf, Preferred, Linked, NoOnes;
      if clst != 0 {
        var cs := GetFat(clst);
        if cs < 2 {
          return 1;
        }
        if cs == DISK_ERROR {
          return cs;
        }
        if cs < g.nFatent {
          return cs;
        }
      }
      if freeClst == 0 {
        return 0;
      }
      r := PickCluster(clst);
      if r > 1 && r != DISK_ERROR {
        LinkedTakes(Fat(), clst, r, EndMark(), freeClst);
        r := TakeCluster(clst, r);
      }
    }

    // ---- Free space ----------------------------------------------------------------------------

    method Scan12() returns (res: FResult, nfree: nat)
      requires Valid() && g.kind.Fat12?
      modifies `disk, `wflag, `missed, `win, `winsect
      ensures Valid() && view == old(view) && WindowStays()
      ensures res == FrOk ==> nfree == |FreeSet(Fat())|
      ensures NoOnes(Fat()) ==> res == FrOk || res == FrDiskErr
      ensures reliable ==> res != FrDiskErr && missed == old(missed)
    {
      hide Tracks, Mirrors, Told, FatOf;
      ghost var f := Fat();
      nfree := 0;
      assert FreeSet(f[..2]) == {};
      var clst: nat := 2;
      while clst < g.nFatent
        invariant Valid() && view == old(view) && WindowStays() && Fat() == f
        invariant 2 <= clst <= g.nFatent && nfree == |FreeSet(f[..clst])|
        invariant reliable ==> missed == old(missed)
      {
        var stat := GetFat(clst);
        if stat == DISK_ERROR {
          return FrDiskErr, nfree;
        }
        if stat == 1 {
          return FrIntErr, nfree;
        }
        FreeOfPrefix(f, clst);
        if stat == 0 {
          nfree := nfree + 1;
        }
        clst := clst + 1;
      }
      assert f[..clst] == f;
      res := FrOk;
    }

    /** Byte offset of an entry in its sector, and its sector in the FAT (16-bit or 32-bit entries). */
    function BytePos(clst: nat): nat {
      if g.kind.Fat16? then clst * 2 % 512 else clst * 4 % 512
    }

    function SectorPos(clst: nat): nat {
      if g.kind.Fat16? then clst * 2 / 512 else clst * 4 / 512
    }

    static lemma Advance2(x: nat)
      requires x % 2 == 0
      ensures (x + 2) % 512 == (x % 512 + 2) % 512
      ensures (x + 2) / 512 == if (x + 2) % 512 == 0 then x / 512 + 1 else x / 512
    {
      var q := x / 512;
      var h := x / 2 - 256 * q;
      assert x % 512 == 2 * h && x + 2 == 512 * q + 2 * (h + 1);
      if h == 255 {
        assert x + 2 == 512 * (q + 1);
      }
    }

    static lemma Advance4(x: nat)
      requires x % 4 == 0
      ensures (x + 4) % 512 == (x % 512 + 4) % 512
      ensures (x + 4) / 512 == if (x + 4) % 512 == 0 then x / 512 + 1 else x / 512
    {
      var q := x / 512;
      var h := x / 4 - 128 * q;
      assert x % 512 == 4 * h && x + 4 == 512 * q + 4 * (h + 1);
      if h == 127 {
        assert x + 4 == 512 * (q + 1);
      }
    }

    lemma NextPos(clst: nat)
      ensures BytePos(clst + 1) == (BytePos(clst) + if g.kind.Fat16? then 2 else 4) % 512
      ensures SectorPos(clst + 1) == if BytePos(clst + 1) == 0 then SectorPos(clst) + 1 else SectorPos(clst)
      ensures BytePos(0) == SectorPos(0) == 0
    {
      if g.kind.Fat16? {
        Advance2(clst * 2);
      } else {
        Advance4(clst * 4);
      }
    }

    lemma SectorPosFits(clst: nat)
      requires g.Layout() && !g.kind.Fat12? && clst < g.nFatent
      ensures SectorPos(clst) < g.fsize
    {
    }

    /** Scan word or doubleword entries from the top of the FAT, a sector at a time. */
    method ScanWords() returns (res: FResult, nfree: nat)
      requires Valid() && !g.kind.Fat12?
      modifies `disk, `wflag, `missed, `win, `winsect
      ensures Valid() && view == old(view) && WindowStays()
      ensures res == FrOk || res == FrDiskErr
      ensures res == FrOk ==> nfree == ZeroCount(Fat(), g.nFatent)
      ensures reliable ==> res == FrOk && missed == old(missed)
    {
      hide Tracks, Mirrors, Told, FatOf, BytePos, SectorPos, Geometry.Layout;
      ghost var f := Fat();
      var clst, sect, i: nat := 0, 0, 0;
      nfree := 0;
      NextPos(0);
      while clst < g.nFatent
        invariant Valid() && view == old(view) && WindowStays() && Fat() == f
        invariant clst <= g.nFatent && nfree == ZeroCount(f, clst)
        invariant i == BytePos(clst)
        invariant sect == if i == 0 then SectorPos(clst) else SectorPos(clst) + 1
        invariant i != 0 ==> winsect == g.fatbase + SectorPos(clst)
        invariant reliable ==> missed == old(missed)
      {
        NextPos(clst);
        SectorPosFits(clst);
        if i == 0 {
          var ok := MoveToFat(sect);
          if !ok {
            return FrDiskErr, nfree;
          }
          sect := sect + 1;
        }
        var zero := ZeroInWindow(clst, i);
        if zero {
          nfree := nfree + 1;
        }
        i := (i + if g.kind.Fat16? then 2 else 4) % 512;
        clst := clst + 1;
      }
      res := FrOk;
    }

    /** Whether the entry at byte i of the window, that of clst, reads 0. */
    method ZeroInWindow(clst: nat, i: nat) returns (zero: bool)
      requires Valid() && clst < g.nFatent && !g.kind.Fat12?
      requires i == BytePos(clst) && winsect == g.fatbase + SectorPos(clst)
      ensures zero == (Fat()[clst] == 0)
    {
      hide Mirrors;
      SectorPosFits(clst);
      assert winsect < g.total && !g.Unchecked(winsect) && win == view[winsect];
      if g.kind.Fat16? {
        Pos16(clst);
        zero := LdWord(win, i) == 0;
      } else {
        Pos32(clst);
        zero := LdDword(win, i) % 0x1000_0000 == 0;
      }
    }

    /** Number of free clusters: the cached count if it is in range, otherwise a scan that refreshes it. */
    method GetFree() returns (res: FResult, nclst: nat)
      requires Valid()
      modifies `disk, `wflag, `missed, `win, `winsect, `freeClst, `fsiDirty
      ensures Valid() && view == old(view) && WindowStays()
      ensures old(freeClst) <= g.nFatent - 2 ==> res == FrOk && nclst == freeClst == old(freeClst)
      ensures res == FrOk && old(freeClst) > g.nFatent - 2 ==>
                && freeClst == nclst
                && nclst == |FreeSet(Fat())| + if g.kind.Fat12? then 0 else ZeroCount(Fat(), 2)
      ensures res != FrOk ==> freeClst == old(freeClst)
      ensures reliable && NoOnes(Fat()) ==> res == FrOk
      ensures reliable ==> missed == old(missed)
    {
      hide Tracks, Mirrors, FatOf, FreeSet, ZeroCount, NoOnes, Geometry.Layout;
      res := FrOk;
      if freeClst <= g.nFatent - 2 {
        nclst := freeClst;
        return;
      }
      if g.kind.Fat12? {
        res, nclst := Scan12();
      } else {
        res, nclst := ScanWords();
      }
      WholeCount();
      if res == FrOk {
        freeClst := nclst;
        fsiDirty := true;
      }
    }

    static lemma AtMostTwo(f: seq<nat>)
      requires |f| >= 2
      ensures ZeroCount(f, 2) <= 2
    {
      assert ZeroCount(f, 1) <= 1;
    }

    lemma WholeCount()
      requires Valid()
      ensures |Fat()| == g.nFatent >= 2
      ensures ZeroCount(Fat(), g.nFatent) == ZeroCount(Fat(), 2) + |FreeSet(Fat())| <= UNKNOWN
    {
      hide Tracks, Mirrors, Told, FatOf, ZeroCount, FreeSet;
      FreeBound(Fat());
      AtMostTwo(Fat());
      ZeroCountIsFree(Fat(), g.nFatent);
      assert Fat()[..g.nFatent] == Fat();
    }

    // ---- Synchronising -------------------------------------------------------------------------

    /** Everything the engine relies on is on the disk itself. */
    ghost predicate Settled()
      reads this
    {
      |disk| == |view| && forall s :: 0 <= s < |disk| && !g.Unchecked(s) ==> disk[s] == view[s]
    }

    lemma FatOnDisk()
      requires Valid() && Settled()
      ensures FatOf(FatTable(), disk) == Fat()
    {
      FatFrame(FatTable(), disk, view);
    }

    /** Write the window back, refresh the FSInfo sector and have the drive settle. */
    method SyncFs() returns (res: FResult)
      requires Valid()
      modifies `disk, `wflag, `missed, `win, `winsect, `fsiDirty, `untold
      ensures Valid() && view == old(view) && WindowStays()
      ensures res == FrOk || res == FrDiskErr
      ensures res == FrOk ==> !wflag && Settled()
      ensures res == FrOk && g.kind.Fat32? && fsiEnabled ==> !fsiDirty
      ensures reliable && !old(untold) ==> !untold
      ensures reliable ==> res == FrOk && missed == old(missed)
    {
      res := SyncWindow();
      if res == FrOk {
        assert Settled();
        if g.kind.Fat32? && fsiEnabled && fsiDirty {
          WriteFsInfo();
        }
        if !reliable {
          var settled: bool := *;
          if !settled {
            res := FrDiskErr;
          }
        }
      }
    }

    /** Build the FSInfo sector in the window and write it; a failure is ignored. */
    method WriteFsInfo()
      requires Valid() && !wflag && Settled() && g.kind.Fat32?
      modifies `disk, `win, `winsect, `fsiDirty, `untold
      ensures Valid() && Settled() && !fsiDirty && winsect == g.volbase + 1
      ensures !untold ==> disk[g.volbase + 1] == FsInfo(freeClst, lastClst)
      ensures reliable ==> !untold
    {
      hide FsInfo;
      FsInfoReads(freeClst, lastClst);
      win := FsInfo(freeClst, lastClst);
      winsect := g.volbase + 1;
      var ok := DiskWrite(winsect, win);
      fsiDirty, untold := false, !ok;
      if Mirrored() {
        MirrorsAfterWrite(old(disk), disk, g.fatbase, g.fsize, -1, winsect);
      }
    }

    /** First sector of a cluster, 0 for a cluster out of range. */
    function ClusterToSector(clst: nat): nat {
      if g.ValidCluster(clst) then g.FirstSector(clst) else 0
    }

    // ---- Direct access to file data ------------------------------------------------------------

    /** A run of data sectors the window does not cache. */
    ghost predicate Direct(sect: nat, n: nat)
      reads this
    {
      g.database <= sect && sect + n <= g.total && !(sect <= winsect < sect + n)
    }

    /** Read data sectors past the window. */
    method ReadData(sect: nat, n: nat) returns (ok: bool, data: seq<Sector>)
      requires Valid() && Direct(sect, n)
      ensures ok ==> |data| == n && forall j :: 0 <= j < n ==> data[j] == view[sect + j]
      ensures reliable ==> ok
    {
      hide Mirrors;
      data := [];
      var i: nat := 0;
      while i < n
        invariant i <= n && |data| == i && forall j :: 0 <= j < i ==> data[j] == view[sect + j]
      {
        var good, d := DiskRead(sect + i);
        if !good {
          return false, data;
        }
        data := data + [d];
        i := i + 1;
      }
      ok := true;
    }

    /** Write one data sector past the window. */
    method WriteSector(sect: nat, data: Sector) returns (ok: bool)
      requires Valid() && Direct(sect, 1)
      modifies `disk, `view
      ensures Valid() && Fat() == old(Fat())
      ensures ok ==> view == old(view)[sect := data]
      ensures view == old(view)[sect := view[sect]]
      ensures reliable ==> ok
    {
      hide FatOf;
      ok := DiskWrite(sect, data);
      view := view[sect := disk[sect]];
      FatFrame(FatTable(), old(view), view);
      if Mirrored() {
        MirrorsAfterWrite(old(disk), disk, g.fatbase, g.fsize, if wflag then winsect else -1, sect);
      }
      hide Mirrors;
    }

    /** Fill a cluster with zeros, with the window on its first sector. */
    method ClearCluster(clst: nat) returns (ok: bool)
      requires Valid() && g.Wf() && g.ValidCluster(clst)
      modifies `disk, `wflag, `missed, `win, `winsect, `view
      ensures ok ==> Valid() && SameOutside(old(view), view, g.FirstSector(clst), g.csize) && Fat() == old(Fat())
      ensures ok ==> ZeroRun(view, g.FirstSector(clst), g.csize) && ZeroRun(disk, g.FirstSector(clst), g.csize)
      ensures reliable ==> ok && missed == old(missed)
    {
      hide Mirrors, FatOf, Geometry.Wf, Geometry.FirstSector, Geometry.Unchecked, Tracks;
      var res := SyncWindow();
      if res != FrOk {
        return false;
      }
      ClusterHere(clst);
      var sect := ClusterToSector(clst);
      ghost var t := view;
      CleanWindow();
      winsect, win := sect, ZeroSector();
      ok := WriteZeros(sect, g.csize);
      if ok {
        view := Zeroed(t, sect, g.csize);
        FatFrame(FatTable(), t, view);
        ZeroedTracks(sect, t);
      }
    }

    /** With a clean window the disk is the view. */
    lemma CleanWindow()
      requires Valid() && !wflag
      ensures forall s :: 0 <= s < |disk| && !g.Unchecked(s) ==> disk[s] == view[s]
      ensures Mirrored() ==> Mirrors(disk, g.fatbase, g.fsize, -1)
    {
    }

    static ghost function ZeroedAt(v: seq<Sector>, sect: nat, n: nat, s: nat): Sector
      requires s < |v|
    {
      if sect <= s < sect + n then ZeroSector() else v[s]
    }

    static ghost function Zeroed(v: seq<Sector>, sect: nat, n: nat): (r: seq<Sector>)
      ensures |r| == |v| && forall s :: 0 <= s < |v| ==> r[s] == if sect <= s < sect + n then ZeroSector() else v[s]
    {
      seq(|v|, s requires 0 <= s < |v| => ZeroedAt(v, sect, n, s))
    }

    lemma ZeroedTracks(sect: nat, t: seq<Sector>)
      requires winsect == sect && win == ZeroSector() && g.csize > 0 && view == Zeroed(t, sect, g.csize)
      requires |t| == |disk| && sect + g.csize <= |disk|
      requires forall s :: 0 <= s < |disk| && !g.Unchecked(s) && !(sect <= s < sect + g.csize) ==> disk[s] == t[s]
      requires forall s :: sect <= s < sect + g.csize ==> disk[s] == ZeroSector()
      ensures Tracks(g, view, disk, win, winsect) && disk[winsect] == win
    {
    }

    /** Write n zero sectors to the data area. */
    method WriteZeros(sect: nat, n: nat) returns (ok: bool)
      requires g.Layout() && g.database <= sect && sect + n <= |disk| == g.total
      requires Mirrored() ==> Mirrors(disk, g.fatbase, g.fsize, -1)
      modifies `disk
      ensures SameOutside(old(disk), disk, sect, n)
      ensures ok ==> forall s :: sect <= s < sect + n ==> disk[s] == ZeroSector()
      ensures Mirrored() ==> Mirrors(disk, g.fatbase, g.fsize, -1)
      ensures reliable ==> ok
    {
      hide Mirrors;
      ok := true;
      var i: nat := 0;
      while i < n
        invariant i <= n && ok && SameOutside(old(disk), disk, sect, n)
        invariant forall s :: sect <= s < sect + i ==> disk[s] == ZeroSector()
        invariant Mirrored() ==> Mirrors(disk, g.fatbase, g.fsize, -1)
      {
        ghost var was := disk;
        ok := DiskWrite(sect + i, ZeroSector());
        if Mirrored() {
          MirrorsAfterWrite(was, disk, g.fatbase, g.fsize, -1, sect + i);
        }
        if !ok {
          return;
        }
        i := i + 1;
      }
    }

    lemma ClusterHere(clst: nat)
      requires Valid() && g.Wf() && g.ValidCluster(clst)
      ensures g.csize > 0 && g.database <= g.FirstSector(clst) && g.FirstSector(clst) + g.csize <= g.total
      ensures forall s :: g.FirstSector(clst) <= s < g.FirstSector(clst) + g.csize ==> !g.Unchecked(s)
    {
      ClusterInData(g, clst);
    }

    /** Write data sectors past the window; a failure can leave the run partly written. */
    method WriteData(sect: nat, data: seq<Sector>) returns (ok: bool)
      requires Valid() && Direct(sect, |data|)
      modifies `disk, `view
      ensures Valid() && Fat() == old(Fat())
      ensures SameOutside(old(view), view, sect, |data|)
      ensures ok ==> forall j :: 0 <= j < |data| ==> data[j] == view[sect + j]
      ensures reliable ==> ok
    {
      hide Tracks, Mirrors, Told, FatOf;
      var i: nat := 0;
      while i < |data|
        invariant i <= |data| && Valid() && Fat() == old(Fat())
        invariant forall s :: 0 <= s < g.total && !(sect <= s < sect + |data|) ==> view[s] == old(view)[s]
        invariant forall j :: 0 <= j < i ==> data[j] == view[sect + j]
      {
        ok := WriteSector(sect + i, data[i]);
        if !ok {
          return;
        }
        i := i + 1;
      }
      ok := true;
    }
  }
}
