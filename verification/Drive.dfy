/** A raw drive of 512-byte sectors. */
module Drives {
  import opened Bytes

  /** data lies on the drive from sector s on. */
  ghost predicate Holds(disk: seq<Sector>, s: nat, data: seq<Sector>) {
    s + |data| <= |disk| && forall i :: 0 <= i < |data| ==> disk[s + i] == data[i]
  }

  class Drive {
    /** No request inside the drive fails. */
    const reliable: bool
    var disk: seq<Sector>

    method Read(s: nat) returns (ok: bool, data: Sector)
      ensures ok ==> s < |disk| && data == disk[s]
      ensures reliable && s < |disk| ==> ok
    {
      ok := s < |disk|;
      data := ZeroSector();
      if ok && !reliable {
        ok := *;
      }
      if ok {
        data := disk[s];
      }
    }

    /** Write sectors; after a failure those in range hold anything. */
    method Write(s: nat, data: seq<Sector>) returns (ok: bool)
      modifies this
      ensures SameOutside(old(disk), disk, s, |data|)
      ensures ok ==> Holds(disk, s, data)
      ensures reliable && s + |data| <= |disk| ==> ok
    {
      ok := s + |data| <= |disk|;
      if ok && !reliable {
        ok := *;
      }
      if ok {
        disk := disk[..s] + data + disk[s + |data|..];
        assert forall i :: 0 <= i < |data| ==> disk[s + i] == data[i];
      } else {
        var junk: seq<Sector> := *;
        var was := disk;
        if |junk| == |was| {
          disk := seq(|was|, r requires 0 <= r < |was| => if s <= r < s + |data| then junk[r] else was[r]);
        }
      }
    }

    /** Ask the drive to make its writes durable. */
    method Sync() returns (ok: bool)
      ensures reliable ==> ok
    {
      ok := true;
      if !reliable {
        ok := *;
      }
    }
  }
}
