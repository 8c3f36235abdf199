/** Where the bytes of a file lie: sectors and bytes addressed through its cluster chain. */
module FatLayout {
  import opened Arithmetic
  import opened Bytes
  import opened FatGeometry
  import opened FatTable
  import opened FatChains

  /** clust2sect: the first sector of a cluster, 0 for anything else. */
  function Clust2Sect(g: Geometry, clst: nat): (s: nat) {
    if clst < 2 || clst - 2 >= g.nFatent - 2 then 0 else Product(clst - 2, g.csize) + g.database
  }

  /** Cluster 2 starts the data area, and every cluster stands right behind the one before it. */
  lemma {:induction false} ClustersInRow(g: Geometry, c: nat)
    requires g.Valid() && IsCluster(g, c)
    ensures Clust2Sect(g, 2) == g.database
    ensures IsCluster(g, c + 1) ==> Clust2Sect(g, c + 1) == Clust2Sect(g, c) + g.csize
    ensures Clust2Sect(g, c) == g.database + (c - 2) * g.csize
  {
    ProductIs(c - 2, g.csize);
  }

  /** The sectors of a cluster lie in the data area, behind the FAT copies. */
  lemma {:induction false} ClusterInData(g: Geometry, c: nat)
    requires g.Valid() && IsCluster(g, c)
    ensures g.FatEnd() <= g.database <= Clust2Sect(g, c)
    ensures Clust2Sect(g, c) + g.csize <= g.total
  {
    ProductGap(c - 2, g.nFatent - 2, g.csize);
  }

  /** Two clusters share no sector. */
  lemma {:induction false} ClustersApart(g: Geometry, c: nat, e: nat)
    requires g.Valid() && IsCluster(g, c) && IsCluster(g, e) && c < e
    ensures Clust2Sect(g, c) + g.csize <= Clust2Sect(g, e)
  {
    ProductGap(c - 2, e - 2, g.csize);
  }

  ghost predicate Clusters(g: Geometry, ch: seq<nat>) {
    forall i :: 0 <= i < |ch| ==> IsCluster(g, ch[i])
  }

  /** `s` is a sector of one of the clusters of `ch`. */
  ghost predicate Owned(g: Geometry, ch: seq<nat>, s: int) {
    exists k :: 0 <= k < |ch| && Clust2Sect(g, ch[k]) <= s < Clust2Sect(g, ch[k]) + g.csize
  }

  /** Sector `i` of the file. */
  function FileSector(g: Geometry, ch: seq<nat>, i: nat): (s: nat)
    requires g.csize > 0 && Quot(i, g.csize) < |ch|
  {
    Clust2Sect(g, ch[Quot(i, g.csize)]) + Rem(i, g.csize)
  }

  lemma {:induction false} FileSectorFacts(g: Geometry, ch: seq<nat>, i: nat)
    requires g.Valid() && Clusters(g, ch) && Quot(i, g.csize) < |ch|
    ensures g.FatEnd() <= g.database <= FileSector(g, ch, i) < g.total
    ensures Owned(g, ch, FileSector(g, ch, i))
  {
    ClusterInData(g, ch[Quot(i, g.csize)]);
  }

  /** Different sectors of a file are different sectors of the disk. */
  lemma {:induction false} FileSectorInjective(g: Geometry, t: seq<nat>, ch: seq<nat>, i: nat, j: nat)
    requires g.Valid() && |t| == g.nFatent && IsChain(t, ch)
    requires Quot(i, g.csize) < |ch| && Quot(j, g.csize) < |ch| && i != j
    ensures FileSector(g, ch, i) != FileSector(g, ch, j)
  {
    var a, b := Quot(i, g.csize), Quot(j, g.csize);
    if a == b {
      if Rem(i, g.csize) == Rem(j, g.csize) {
        QuotInjective(i, j, g.csize);
      }
    } else {
      ChainAcyclic(t, ch, if a < b then a else b, if a < b then b else a);
      ClustersApart(g, if ch[a] < ch[b] then ch[a] else ch[b], if ch[a] < ch[b] then ch[b] else ch[a]);
    }
  }

  lemma {:induction false} OwnedApart(g: Geometry, a: seq<nat>, b: seq<nat>, i: nat)
    requires g.Valid() && Clusters(g, a) && Clusters(g, b) && Disjoint(a, b) && Quot(i, g.csize) < |a|
    ensures !Owned(g, b, FileSector(g, a, i))
  {
    var c := a[Quot(i, g.csize)];
    forall k | 0 <= k < |b|
      ensures !(Clust2Sect(g, b[k]) <= FileSector(g, a, i) < Clust2Sect(g, b[k]) + g.csize)
    {
      assert c != b[k];
      ClustersApart(g, if c < b[k] then c else b[k], if c < b[k] then b[k] else c);
    }
  }

  /** The chain has a cluster for every byte below `size`. */
  predicate Covers(g: Geometry, ch: seq<nat>, size: nat)
    requires g.ss > 0 && g.csize > 0
  {
    size == 0 || Quot(Quot(size - 1, g.ss), g.csize) < |ch|
  }

  lemma {:induction false} CoversAt(g: Geometry, ch: seq<nat>, size: nat, p: nat)
    requires g.Valid() && Covers(g, ch, size) && p < size
    ensures Quot(Quot(p, g.ss), g.csize) < |ch|
  {
    QuotMono(p, size - 1, g.ss);
    QuotMono(Quot(p, g.ss), Quot(size - 1, g.ss), g.csize);
  }

  /** Byte `p` of the file. */
  function FileByte(g: Geometry, d: seq<Sector>, ch: seq<nat>, p: nat): (b: byte)
    requires g.Valid() && DiskOk(g, d) && Clusters(g, ch) && Quot(Quot(p, g.ss), g.csize) < |ch|
  {
    FileSectorFacts(g, ch, Quot(p, g.ss));
    d[FileSector(g, ch, Quot(p, g.ss))][Rem(p, g.ss)]
  }

  /** The first `size` bytes of the file. */
  function Contents(g: Geometry, d: seq<Sector>, ch: seq<nat>, size: nat): (c: seq<byte>)
    requires g.Valid() && DiskOk(g, d) && Clusters(g, ch) && Covers(g, ch, size)
    ensures |c| == size
    decreases size
  {
    if size == 0 then []
    else
      CoversAt(g, ch, size, size - 1);
      CoversLess(g, ch, size, size - 1);
      Contents(g, d, ch, size - 1) + [FileByte(g, d, ch, size - 1)]
  }

  lemma {:induction false} CoversLess(g: Geometry, ch: seq<nat>, size: nat, less: nat)
    requires g.Valid() && Covers(g, ch, size) && less <= size
    ensures Covers(g, ch, less)
  {
    if less > 0 {
      CoversAt(g, ch, size, less - 1);
    }
  }

  lemma {:induction false} ContentsAt(g: Geometry, d: seq<Sector>, ch: seq<nat>, size: nat, p: nat)
    requires g.Valid() && DiskOk(g, d) && Clusters(g, ch) && Covers(g, ch, size) && p < size
    ensures Quot(Quot(p, g.ss), g.csize) < |ch|
    ensures Contents(g, d, ch, size)[p] == FileByte(g, d, ch, p)
    decreases size
  {
    CoversAt(g, ch, size, p);
    if p < size - 1 {
      CoversLess(g, ch, size, size - 1);
      ContentsAt(g, d, ch, size - 1, p);
    }
  }

  /** Byte `x` of the device. */
  function DeviceByte(g: Geometry, d: seq<Sector>, x: nat): (b: byte)
    requires g.Valid() && DiskOk(g, d) && x / g.ss < g.total
  {
    var i, o := x / g.ss, x % g.ss;
    WithinSector(x, g.ss);
    assert |d[i]| == g.ss;
    d[i][o]
  }

  lemma {:induction false} WithinSector(x: nat, ss: nat)
    requires ss > 0
    ensures 0 <= x / ss && 0 <= x % ss < ss
  {
  }

  /** Where byte `o` of cluster `c` lies on the device. */
  function ClusterAddress(g: Geometry, c: nat, o: nat): (x: nat)
    requires c >= 2
  {
    (g.database + (c - 2) * g.csize) * g.ss + o
  }

  /**
   * Byte p of a file is byte p mod m of the cluster number p div m of its chain, for clusters of m bytes that lie one
   * behind the other from the start of the data area on.
   */
  lemma {:induction false} FileByteAddress(g: Geometry, d: seq<Sector>, ch: seq<nat>, p: nat)
    requires g.Valid() && DiskOk(g, d) && Clusters(g, ch) && Quot(Quot(p, g.ss), g.csize) < |ch|
    ensures var m := g.csize * g.ss;
            && m > 0 && Quot(p, m) < |ch|
            && var x := ClusterAddress(g, ch[Quot(p, m)], Rem(p, m));
               x / g.ss < g.total && FileByte(g, d, ch, p) == DeviceByte(g, d, x)
  {
    var i, o := Quot(p, g.ss), Rem(p, g.ss);
    var k, j := Quot(i, g.csize), Rem(i, g.csize);
    FileSectorFacts(g, ch, i);
    ClustersInRow(g, ch[k]);
    QuotRem(p, g.ss);
    QuotRem(i, g.csize);
    TwoLevels(p, g.ss, g.csize, i, o, k, j);
    SectorAddress(g.database + (ch[k] - 2) * g.csize, j, o, g.ss);
  }

  lemma {:induction false} TwoLevels(p: nat, ss: nat, csize: nat, i: nat, o: nat, k: nat, j: nat)
    requires ss > 0 && csize > 0 && o < ss && j < csize && p == i * ss + o && i == k * csize + j
    ensures csize * ss > 0 && Quot(p, csize * ss) == k && Rem(p, csize * ss) == j * ss + o
  {
    RoomFor(ss, j, csize);
    Distributes(ss, k, csize, j);
    ProductIs(k, csize * ss);
    QuotUnique(p, csize * ss, k, j * ss + o);
  }

  lemma {:induction false} SectorAddress(first: nat, j: nat, o: nat, ss: nat)
    requires o < ss
    ensures (first * ss + (j * ss + o)) / ss == first + j && (first * ss + (j * ss + o)) % ss == o
  {
    Distributes(ss, first, 1, j);
    DivModUnique(first * ss + (j * ss + o), ss, first + j, o);
  }

  // ---------------------------------------------------------------- what a write may change

  /** Outside the FAT copies only sectors of `ch` differ. */
  ghost predicate OnlyFile(g: Geometry, d: seq<Sector>, e: seq<Sector>, ch: seq<nat>)
    requires g.Valid() && |d| == |e| == g.total
  {
    forall s {:trigger SameSector(d, e, s)} ::
      0 <= s < g.total && !(g.fatbase <= s < g.FatEnd()) && !Owned(g, ch, s) ==> SameSector(d, e, s)
  }

  ghost predicate SameSector(d: seq<Sector>, e: seq<Sector>, s: nat)
    requires s < |d| == |e|
  {
    d[s] == e[s]
  }

  /** `ch'` is `ch` with clusters behind it that were free; entries outside `ch'` keep their value. */
  ghost predicate Grows(t: seq<nat>, t': seq<nat>, ch: seq<nat>, ch': seq<nat>) {
    && |t| == |t'|
    && ch <= ch'
    && (forall c {:trigger SameEntry(t, t', c)} :: 0 <= c < |t| && c !in ch' ==> SameEntry(t, t', c))
    && (forall i {:trigger WasFree(t, ch', i)} :: |ch| <= i < |ch'| ==> WasFree(t, ch', i))
  }

  ghost predicate SameEntry(t: seq<nat>, t': seq<nat>, c: nat)
    requires c < |t| == |t'|
  {
    t[c] == t'[c]
  }

  ghost predicate WasFree(t: seq<nat>, ch: seq<nat>, i: nat)
    requires i < |ch|
  {
    2 <= ch[i] < |t| && t[ch[i]] == 0
  }

  lemma {:induction false} GrowsTrans(t0: seq<nat>, t1: seq<nat>, t2: seq<nat>, c0: seq<nat>, c1: seq<nat>,
                                      c2: seq<nat>)
    requires Grows(t0, t1, c0, c1) && Grows(t1, t2, c1, c2)
    requires c2 == [] || IsChain(t2, c2)
    ensures Grows(t0, t2, c0, c2)
  {
    forall i | |c0| <= i < |c2|
      ensures WasFree(t0, c2, i)
    {
      if i < |c1| {
        assert c2[i] == c1[i];
        assert WasFree(t0, c1, i);
      } else {
        assert WasFree(t1, c2, i);
        forall j | 0 <= j < |c1|
          ensures c1[j] != c2[i]
        {
          ChainAcyclic(t2, c2, j, i);
          assert c1[j] == c2[j];
        }
        assert SameEntry(t0, t1, c2[i]);
      }
    }
    forall c | 0 <= c < |t0| && c !in c2
      ensures SameEntry(t0, t2, c)
    {
      assert c !in c1;
      assert SameEntry(t0, t1, c) && SameEntry(t1, t2, c);
    }
  }

  lemma {:induction false} OwnedPrefix(g: Geometry, a: seq<nat>, b: seq<nat>, s: int)
    requires a <= b && Owned(g, a, s)
    ensures Owned(g, b, s)
  {
    var k :| 0 <= k < |a| && Clust2Sect(g, a[k]) <= s < Clust2Sect(g, a[k]) + g.csize;
    assert b[k] == a[k];
  }

  lemma {:induction false} OnlyFileTrans(g: Geometry, d0: seq<Sector>, d1: seq<Sector>, d2: seq<Sector>, a: seq<nat>,
                                         b: seq<nat>)
    requires g.Valid() && |d0| == |d1| == |d2| == g.total && a <= b
    requires OnlyFile(g, d0, d1, a) && OnlyFile(g, d1, d2, b)
    ensures OnlyFile(g, d0, d2, b)
  {
    forall s | 0 <= s < g.total && !(g.fatbase <= s < g.FatEnd()) && !Owned(g, b, s)
      ensures SameSector(d0, d2, s)
    {
      if Owned(g, a, s) {
        OwnedPrefix(g, a, b, s);
      }
      assert SameSector(d0, d1, s) && SameSector(d1, d2, s);
    }
  }

  /** A file on a chain apart from the written one keeps its chain, its distance and every byte. */
  lemma {:induction false} OtherFileUntouched(g: Geometry, d: seq<Sector>, d': seq<Sector>,
                           ch: seq<nat>, ch': seq<nat>, other: seq<nat>, size: nat)
    requires g.Valid() && DiskOk(g, d) && DiskOk(g, d')
    requires Grows(Table(g, d), Table(g, d'), ch, ch') && OnlyFile(g, d, d', ch')
    requires Clusters(g, ch') && (other == [] || IsChain(Table(g, d), other)) && Disjoint(other, ch)
    requires Covers(g, other, size)
    ensures other == [] || IsChain(Table(g, d'), other)
    ensures Disjoint(other, ch') && Clusters(g, other)
    ensures Contents(g, d', other, size) == Contents(g, d, other, size)
  {
    var t, t' := Table(g, d), Table(g, d');
    forall i, j | 0 <= i < |other| && 0 <= j < |ch'|
      ensures other[i] != ch'[j]
    {
      if j >= |ch| {
        assert WasFree(t, ch', j);
        FreeNotInChain(t, other, ch'[j]);
        assert other[i] in other;
      } else {
        assert ch'[j] == ch[j];
      }
    }
    if other != [] {
      forall i | 0 <= i < |other|
        ensures t'[other[i]] == t[other[i]]
      {
        assert other[i] !in ch';
        assert SameEntry(t, t', other[i]);
      }
      ChainFrame(t, t', other);
    }
    forall p | 0 <= p < size
      ensures Contents(g, d', other, size)[p] == Contents(g, d, other, size)[p]
    {
      ContentsAt(g, d, other, size, p);
      ContentsAt(g, d', other, size, p);
      OwnedApart(g, other, ch', Quot(p, g.ss));
      FileSectorFacts(g, other, Quot(p, g.ss));
      assert SameSector(d, d', FileSector(g, other, Quot(p, g.ss)));
    }
  }
}
