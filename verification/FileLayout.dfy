/** Where the bytes of a file lie: file sector k is sector k % csize of cluster k / csize of its chain. */
module FileLayout {
  import opened VolumeGeometry
  import opened Chains

  /** Position in the chain of the cluster that holds byte o. */
  function ClusterIndex(g: Geometry, o: nat): nat
    requires g.csize > 0
  {
    o / 512 / g.csize
  }

  /** Position in its cluster of the sector that holds byte o. */
  function SectorIndex(g: Geometry, o: nat): (i: nat)
    requires g.csize > 0
    ensures i < g.csize
  {
    o / 512 % g.csize
  }

  /** Clusters a file of the given size occupies. */
  function ClustersFor(g: Geometry, size: nat): nat
    requires g.csize > 0
  {
    if size == 0 then 0 else ClusterIndex(g, size - 1) + 1
  }

  /** Sectors that hold bytes of a file of the given size. */
  function SectorsFor(size: nat): nat {
    (size + 511) / 512
  }

  ghost predicate ClustersOk(g: Geometry, chain: seq<nat>) {
    forall i :: 0 <= i < |chain| ==> g.ValidCluster(chain[i])
  }

  /** File sector k has its cluster in the chain. */
  predicate Has(g: Geometry, chain: seq<nat>, k: nat) {
    g.csize > 0 && k / g.csize < |chain|
  }

  /** Drive sector of file sector k; 0 for a sector the chain does not reach. */
  function SectorAt(g: Geometry, chain: seq<nat>, k: nat): nat {
    if Has(g, chain, k) && chain[k / g.csize] >= 2
    then g.FirstSector(chain[k / g.csize]) + k % g.csize
    else 0
  }

  ghost predicate InCluster(g: Geometry, c: nat, s: nat)
  {
    c >= 2 && g.FirstSector(c) <= s < g.FirstSector(c) + g.csize
  }

  // ---- Arithmetic of clusters ------------------------------------------------------------------

  lemma MulMono(a: nat, b: nat, m: nat)
    requires a <= b
    ensures m * a <= m * b
  {
  }

  lemma DivMono(a: nat, b: nat, m: nat)
    requires a <= b && m > 0
    ensures a / m <= b / m
  {
    if a / m > b / m {
      MulMono(b / m + 1, a / m, m);
    }
  }

  /** A quotient is determined by its bounds. */
  lemma DivIs(a: nat, q: nat, m: nat)
    requires m > 0 && m * q <= a < m * q + m
    ensures a / m == q && a % m == a - m * q
  {
    assert a == m * (a / m) + a % m;
    if a / m < q {
      MulMono(a / m + 1, q, m);
    } else if a / m > q {
      MulMono(q + 1, a / m, m);
    }
  }

  lemma FirstSectors(g: Geometry, c: nat, d: nat)
    requires 2 <= c < d
    ensures g.FirstSector(c) + g.csize <= g.FirstSector(d)
  {
    MulMono(c - 1, d - 2, g.csize);
  }

  /** A valid cluster lies wholly in the data area and inside the drive. */
  lemma ClusterInData(g: Geometry, c: nat)
    requires g.Wf() && g.ValidCluster(c)
    ensures g.database <= g.FirstSector(c) && g.FirstSector(c) + g.csize <= g.total
  {
    hide Geometry.Layout;
    MulMono(c - 1, g.nFatent - 2, g.csize);
    assert g.csize * (c - 1) == g.csize * (c - 2) + g.csize;
  }

  lemma ClustersApart(g: Geometry, c: nat, d: nat, s: nat)
    requires InCluster(g, c, s) && InCluster(g, d, s)
    ensures c == d
  {
    if c < d {
      FirstSectors(g, c, d);
    } else if d < c {
      FirstSectors(g, d, c);
    }
  }

  lemma SectorAtIn(g: Geometry, chain: seq<nat>, k: nat)
    requires g.Wf() && ClustersOk(g, chain) && Has(g, chain, k)
    ensures InCluster(g, chain[k / g.csize], SectorAt(g, chain, k))
    ensures g.database <= SectorAt(g, chain, k) < g.total
  {
    ClusterInData(g, chain[k / g.csize]);
  }

  /** Distinct file sectors lie in distinct drive sectors. */
  lemma SectorAtInjective(g: Geometry, chain: seq<nat>, j: nat, k: nat)
    requires g.Wf() && ClustersOk(g, chain) && Distinct(chain)
    requires Has(g, chain, j) && Has(g, chain, k)
    requires SectorAt(g, chain, j) == SectorAt(g, chain, k)
    ensures j == k
  {
    hide InCluster, Geometry.FirstSector, Geometry.Layout;
    var p, q := j / g.csize, k / g.csize;
    SectorAtIn(g, chain, j);
    SectorAtIn(g, chain, k);
    ClustersApart(g, chain[p], chain[q], SectorAt(g, chain, j));
    assert p == q;
    assert j == g.csize * p + j % g.csize && k == g.csize * q + k % g.csize;
  }

  /** Inside a cluster, consecutive file sectors are consecutive drive sectors. */
  lemma SectorAtRun(g: Geometry, chain: seq<nat>, k: nat, i: nat)
    requires g.Wf() && ClustersOk(g, chain) && Has(g, chain, k) && k % g.csize + i < g.csize
    ensures (k + i) / g.csize == k / g.csize && Has(g, chain, k + i)
    ensures SectorAt(g, chain, k + i) == SectorAt(g, chain, k) + i
  {
    assert k == g.csize * (k / g.csize) + k % g.csize;
    DivIs(k + i, k / g.csize, g.csize);
  }

  /** Growing the chain keeps earlier sectors where they are. */
  lemma SectorAtGrown(g: Geometry, chain: seq<nat>, longer: seq<nat>, k: nat)
    requires g.csize > 0 && ClustersOk(g, longer) && chain <= longer && Has(g, chain, k)
    ensures SectorAt(g, chain, k) == SectorAt(g, longer, k)
  {
  }

  lemma IndexMono(g: Geometry, a: nat, b: nat)
    requires g.csize > 0 && a <= b
    ensures ClusterIndex(g, a) <= ClusterIndex(g, b)
  {
    DivMono(a / 512, b / 512, g.csize);
  }

  /** Every sector that holds a byte of the file has its cluster in the chain. */
  lemma SectorCovered(g: Geometry, size: nat, k: nat)
    requires g.csize > 0 && k < SectorsFor(size)
    ensures k / g.csize < ClustersFor(g, size)
  {
    DivMono(k, (size - 1) / 512, g.csize);
  }

  /** At the start of sector k, past a byte of the file: either the previous byte's cluster, or the next one. */
  lemma IndexAtBoundary(g: Geometry, o: nat)
    requires g.csize > 0 && o > 0 && o % 512 == 0
    ensures o / 512 % g.csize != 0 ==> ClusterIndex(g, o) == ClusterIndex(g, o - 1)
    ensures o / 512 % g.csize == 0 ==> ClusterIndex(g, o) == ClusterIndex(g, o - 1) + 1
  {
    var k := o / 512;
    assert (o - 1) / 512 == k - 1;
    assert k == g.csize * (k / g.csize) + k % g.csize;
    if k % g.csize != 0 {
      DivIs(k - 1, k / g.csize, g.csize);
    } else {
      assert k / g.csize > 0;
      DivIs(k - 1, k / g.csize - 1, g.csize);
    }
  }

  /** Bytes of one sector share a cluster. */
  lemma IndexInSector(g: Geometry, a: nat, b: nat)
    requires g.csize > 0 && a / 512 == b / 512
    ensures ClusterIndex(g, a) == ClusterIndex(g, b)
  {
  }

  /** Moving n bytes on without leaving the sector. */
  lemma WithinSector(o: nat, n: nat)
    requires 0 < n && o % 512 + n <= 512
    ensures o == 512 * (o / 512) + o % 512
    ensures (o + n - 1) / 512 == o / 512
    ensures (o + n) % 512 != 0 ==> (o + n) / 512 == o / 512
  {
  }

  // ---- Seeking: clusters in bytes --------------------------------------------------------------

  /** Bytes in a cluster. */
  function ClusterBytes(g: Geometry): nat {
    512 * g.csize
  }

  /** A file has no more bytes than its clusters. */
  lemma SizeInClusters(g: Geometry, size: nat)
    requires g.csize > 0
    ensures size <= ClusterBytes(g) * ClustersFor(g, size)
  {
    if size > 0 {
      var k := (size - 1) / 512;
      assert k == g.csize * (k / g.csize) + k % g.csize;
      assert size <= 512 * (k + 1);
      assert k + 1 <= g.csize * (k / g.csize) + g.csize;
      assert ClusterBytes(g) * (k / g.csize + 1) == 512 * (g.csize * (k / g.csize) + g.csize);
    }
  }

  /** The start of a cluster's first sector. */
  lemma AtClusterStart(g: Geometry, o: nat)
    requires g.csize > 0 && o % 512 == 0 && SectorIndex(g, o) == 0
    ensures o == ClusterBytes(g) * ClusterIndex(g, o)
  {
    var k := o / 512;
    assert k == g.csize * (k / g.csize) + k % g.csize;
    assert ClusterBytes(g) * (k / g.csize) == 512 * (g.csize * (k / g.csize));
  }

  lemma DivDiv(x: nat, m: nat)
    requires m > 0
    ensures x / (512 * m) == x / 512 / m
  {
    var q, r := x / 512, x % 512;
    assert q == m * (q / m) + q % m;
    assert x == 512 * m * (q / m) + (512 * (q % m) + r) by {
      assert 512 * (m * (q / m)) == 512 * m * (q / m);
    }
    MulMono(q % m + 1, m, 512);
    DivIs(x, q / m, 512 * m);
  }

  /** The o-th byte of cluster i, counted from 1. */
  lemma IndexInCluster(g: Geometry, i: nat, o: nat)
    requires g.csize > 0 && 0 < o <= ClusterBytes(g)
    ensures ClusterIndex(g, ClusterBytes(g) * i + o - 1) == i
  {
    DivIs(ClusterBytes(g) * i + o - 1, i, ClusterBytes(g));
    DivDiv(ClusterBytes(g) * i + o - 1, g.csize);
  }

  /** Where a cluster position falls inside the file's sectors. */
  lemma SectorInCluster(g: Geometry, i: nat, o: nat)
    requires g.csize > 0 && o < ClusterBytes(g)
    ensures (ClusterBytes(g) * i + o) / 512 / g.csize == i
    ensures (ClusterBytes(g) * i + o) / 512 % g.csize == o / 512
    ensures (ClusterBytes(g) * i + o) % 512 == o % 512
  {
    var k := g.csize * i + o / 512;
    assert ClusterBytes(g) * i + o == 512 * k + o % 512 by {
      assert 512 * (g.csize * i) == ClusterBytes(g) * i;
    }
    DivIs(k, i, g.csize);
  }
}
