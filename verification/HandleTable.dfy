/** The POSIX file handles of the enclave's file manager. */
module HandleTables {

  type Handle = int
  type Path = string
  /** The address of an open file object. */
  type Fil = nat

  datatype OpenResult = Opened(h: Handle) | NoHandles | NoEntry | NoPath

  class FileManager {
    const first: Handle
    const last: Handle
    var next: Handle
    var files: map<Handle, Fil>
    var byPath: map<Path, Handle>
    var handleOf: map<Fil, Handle>
    var pathOf: map<Handle, Path>

    ghost predicate Valid()
      reads this
    {
      && 0 <= first <= last && first <= next <= last + 1
      && (forall h :: h in files ==> first <= h <= last && files[h] in handleOf && handleOf[files[h]] == h)
      && (forall f :: f in handleOf ==> handleOf[f] in files && files[handleOf[f]] == f)
      && files.Keys == pathOf.Keys
      && (forall p :: p in byPath ==> byPath[p] in pathOf && pathOf[byPath[p]] == p)
    }

    constructor (first: Handle, last: Handle)
      requires 0 <= first <= last
      ensures Valid() && files == map[] && this.first == first && this.last == last && next == first
    {
      this.first, this.last, next := first, last, first;
      files, byPath, handleOf, pathOf := map[], map[], map[], map[];
    }

    /** All handles are in use. */
    ghost predicate Full()
      reads this
    {
      forall h :: first <= h <= last ==> h in files
    }

    /** h is the first handle not in use from the one after the last given on, and around. */
    ghost predicate NextFree(after: int, used: map<Handle, Fil>, h: Handle) {
      var start := if after == last + 1 then first else after;
      && h !in used
      && (if h >= start then forall k :: start <= k < h ==> k in used
          else (forall k :: start <= k <= last ==> k in used) && forall k :: first <= k < h ==> k in used)
    }

    /** A handle that is not in use, scanning on from the last one given and around; -1 if there is none. */
    method GetNewHandle() returns (h: Handle)
      requires Valid()
      modifies `next
      ensures Valid()
      ensures h == -1 <==> Full()
      ensures h != -1 ==> first <= h <= last && next == h + 1 && NextFree(old(next), files, h)
    {
      var i := 0;
      if next == last + 1 {
        next := first;
      }
      var n := last - first + 1;
      ghost var start, wrapped := next, false;
      while next in files && i < n
        invariant 0 <= i <= n && first <= next <= last
        invariant if wrapped then i == last + 1 - start + next - first && next <= start else i == next - start
        invariant forall k :: start <= k < (if wrapped then last + 1 else next) ==> k in files
        invariant wrapped ==> forall k :: first <= k < next ==> k in files
        decreases n - i
      {
        if next == last {
          next := first;
          wrapped := true;
        } else {
          next := next + 1;
        }
        i := i + 1;
      }
      if i == n {
        return -1;
      }
      h := next;
      next := next + 1;
    }

    /** Open a file. synced and openOk are what the engine answers; fil is the new file object. */
    method Open(path: Path, synced: bool, openOk: bool, fil: Fil) returns (r: OpenResult)
      requires Valid() && fil !in handleOf
      modifies this
      ensures Valid()
      ensures r.Opened? ==> !old(Full()) && r.h !in old(files) && first <= r.h <= last
      ensures r.Opened? ==> files == old(files)[r.h := fil] && pathOf == old(pathOf)[r.h := path]
      ensures r.Opened? ==> byPath == old(byPath)[path := r.h] && handleOf == old(handleOf)[fil := r.h]
      ensures !r.Opened? ==>
              files == old(files) && pathOf == old(pathOf) && byPath == old(byPath) && handleOf == old(handleOf)
      ensures r.NoPath? <==> path == ""
      ensures r.NoHandles? <==> path != "" && (path in old(byPath) ==> synced) && old(Full())
      ensures r.Opened? <==> path != "" && (path in old(byPath) ==> synced) && !old(Full()) && openOk
      ensures r.Opened? ==> NextFree(old(next), old(files), r.h)
    {
      if path == "" {
        return NoPath;
      }
      if path in byPath {
        var earlier := files[byPath[path]];
        if !synced {
          return NoEntry;
        }
      }
      var h := GetNewHandle();
      if h == -1 {
        return NoHandles;
      }
      if !openOk {
        return NoEntry;
      }
      files := files[h := fil];
      byPath := byPath[path := h];
      handleOf := handleOf[fil := h];
      pathOf := pathOf[h := path];
      r := Opened(h);
    }

    /** Close a handle; closed is what the engine answers. A handle not open is no error. */
    method Close(h: Handle, closed: bool) returns (ok: bool)
      requires Valid()
      modifies this
      ensures Valid() && next == old(next)
      ensures h in old(files) && closed ==>
                files == old(files) - {h} && pathOf == old(pathOf) - {h} && byPath == old(byPath) - {old(pathOf)[h]}
      ensures h !in old(files) || !closed ==> files == old(files) && pathOf == old(pathOf) && byPath == old(byPath)
      ensures ok <==> h !in old(files) || closed
    {
      if h !in files {
        return true;
      }
      var fil := files[h];
      var back := handleOf[fil];
      if !closed {
        return false;
      }
      var path := pathOf[back];
      files := files - {back};
      byPath := byPath - {path};
      handleOf := handleOf - {fil};
      pathOf := pathOf - {back};
      ok := true;
    }
  }

  // ---- Which open files are found by their path ------------------------------------------------

  /** Every open file is found under its path. */
  ghost predicate AllFound(pathOf: map<Handle, Path>, byPath: map<Path, Handle>) {
    forall h :: h in pathOf ==> pathOf[h] in byPath
  }

  /** Opening keeps that. */
  lemma OpenKeepsFound(pathOf: map<Handle, Path>, byPath: map<Path, Handle>, h: Handle, p: Path)
    requires AllFound(pathOf, byPath)
    ensures AllFound(pathOf[h := p], byPath[p := h])
  {
  }

  /** Closing a handle keeps it if and only if no other handle is open on the same path. */
  lemma CloseKeepsFound(pathOf: map<Handle, Path>, byPath: map<Path, Handle>, h: Handle)
    requires AllFound(pathOf, byPath) && h in pathOf
    ensures AllFound(pathOf - {h}, byPath - {pathOf[h]}) <==> forall k :: k in pathOf && k != h ==>
            pathOf[k] != pathOf[h]
  {
    var q, b := pathOf - {h}, byPath - {pathOf[h]};
    forall k | k in pathOf && k != h
      ensures k in q && q[k] == pathOf[k]
    {
    }
  }

  /** A path opened twice: closing one handle makes the other one's path unknown. */
  method OpenTwiceCloseOnce(m: FileManager, path: Path, a: Fil, b: Fil) returns (h: Handle)
    requires m.Valid() && path != "" && a != b && a !in m.handleOf && b !in m.handleOf && m.files == map[]
             && m.last > m.first
    modifies m
    ensures m.Valid() && h in m.files && m.pathOf[h] == path && path !in m.byPath
  {
    hide FileManager.Full;
    NotFull(m);
    var r := m.Open(path, true, true, a);
    NotFull(m);
    var s := m.Open(path, true, true, b);
    h := s.h;
    var _ := m.Close(r.h, true);
  }

  lemma NotFull(m: FileManager)
    requires m.Valid() && |m.files| <= 1 && m.last > m.first
    ensures !m.Full()
  {
    if m.Full() {
      assert m.first in m.files && m.last in m.files;
      assert {m.first, m.last} <= m.files.Keys;
      TwoKeys(m.files, m.first, m.last);
    }
  }

  lemma TwoKeys(m: map<Handle, Fil>, a: Handle, b: Handle)
    requires a in m && b in m && a != b
    ensures |m| >= 2
  {
    assert |m.Keys - {a} - {b}| == |m| - 2;
  }
}
