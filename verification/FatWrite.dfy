/** What one step of f_write does to the logical disk, seen on the bytes of the file. */
module FatWrite {
  import opened Arithmetic
  import opened Bytes
  import opened FatGeometry
  import opened FatTable
  import opened FatChains
  import opened FatLayout
  import opened FatVolume
  import opened FatPosition

  function Max(a: nat, b: nat): (m: nat) { if a < b then b else a }

  /** Overwrite or extend a byte sequence from `p` on, byte by byte. */
  function Splice(c: seq<byte>, p: nat, data: seq<byte>): (r: seq<byte>)
    requires p <= |c|
    ensures |r| == Max(|c|, p + |data|)
    decreases |data|
  {
    if data == [] then c
    else Splice(if p < |c| then c[p := data[0]] else c + [data[0]], p + 1, data[1..])
  }

  lemma {:induction false} SpliceAt(c: seq<byte>, p: nat, data: seq<byte>, k: nat)
    requires p <= |c| && k < Max(|c|, p + |data|)
    ensures Splice(c, p, data)[k] == if p <= k < p + |data| then data[k - p] else c[k]
    decreases |data|
  {
    if data != [] {
      SpliceAt(if p < |c| then c[p := data[0]] else c + [data[0]], p + 1, data[1..], k);
    }
  }

  ghost predicate NoBad(t: seq<nat>) {
    forall c :: 2 <= c < |t| ==> t[c] != 1
  }

  /** Equal FAT copies stay equal, and no bad entry appears. */
  ghost predicate Keeps(g: Geometry, d: seq<Sector>, d': seq<Sector>)
    requires g.Valid() && DiskOk(g, d) && DiskOk(g, d')
  {
    (Mirrored(g, d) ==> Mirrored(g, d')) && (NoBad(Table(g, d)) ==> NoBad(Table(g, d')))
  }

  /** `data` stored at `p` of the file, its chain grown from `ch` to `ch'` if needed, nothing else touched. */
  ghost predicate Wrote(g: Geometry, d: seq<Sector>, d': seq<Sector>, ch: seq<nat>, ch': seq<nat>,
                        size: nat, p: nat, data: seq<byte>)
  {
    && g.Valid() && DiskOk(g, d) && DiskOk(g, d') && Clusters(g, ch) && Clusters(g, ch')
    && Covers(g, ch, size) && p <= size
    && Grows(Table(g, d), Table(g, d'), ch, ch')
    && OnlyFile(g, d, d', ch') && Keeps(g, d, d')
    && Covers(g, ch', Max(size, p + |data|))
    && (forall q: nat {:trigger Stored(g, d, d', ch, ch', p, data, q)} ::
          q < Max(size, p + |data|) ==> Stored(g, d, d', ch, ch', p, data, q))
  }

  /** Byte `q` of the file is the data inside the written range and the old byte outside. */
  ghost predicate Stored(g: Geometry, d: seq<Sector>, d': seq<Sector>, ch: seq<nat>, ch': seq<nat>,
                         p: nat, data: seq<byte>, q: nat)
    requires g.Valid() && DiskOk(g, d) && DiskOk(g, d') && Clusters(g, ch) && Clusters(g, ch')
  {
    && ClusterOf(g, q) < |ch'|
    && if p <= q < p + |data| then FileByte(g, d', ch', q) == data[q - p]
       else ClusterOf(g, q) < |ch| && FileByte(g, d', ch', q) == FileByte(g, d, ch, q)
  }

  lemma {:induction false} ChainClusters(g: Geometry, t: seq<nat>, ch: seq<nat>)
    requires |t| == g.nFatent && (ch == [] || IsChain(t, ch))
    ensures Clusters(g, ch)
  {
  }

  // ---------------------------------------------------------------- allocation

  /** Changing only the FAT and growing the chain leaves the bytes of the file alone. */
  lemma {:induction false} GrowKeepsBytes(g: Geometry, d: seq<Sector>, d': seq<Sector>, ch: seq<nat>, ch': seq<nat>,
                                          size: nat, p: nat, q: nat)
    requires g.Valid() && DiskOk(g, d) && DiskOk(g, d') && SameOutsideFat(g, d, d')
    requires Clusters(g, ch) && Clusters(g, ch') && ch <= ch' && Covers(g, ch, size) && q < size
    ensures Stored(g, d, d', ch, ch', p, [], q)
  {
    CoversAt(g, ch, size, q);
    FileSectorFacts(g, ch, Quot(q, g.ss));
    assert ch[ClusterOf(g, q)] == ch'[ClusterOf(g, q)];
  }

  lemma {:induction false} NoBadKept(t: seq<nat>, clst: nat, a: Alloc, eoc: nat)
    requires NoBad(t) && eoc >= 2 && (a.Fresh? ==> 2 <= a.taken < |t| && clst < |t|)
    ensures NoBad(AllocTable(t, clst, a, eoc))
  {
  }

  /** The table after create_chain took `x` for the file, seen as growth of its chain. */
  lemma {:induction false} AllocGrows(t: seq<nat>, ch: seq<nat>, x: nat, eoc: nat)
    requires (ch == [] || IsChain(t, ch)) && 2 <= x < |t| && t[x] == 0 && eoc >= |t|
    ensures var t' := AllocTable(t, if ch == [] then 0 else ch[|ch| - 1], Fresh(x), eoc);
      Grows(t, t', ch, ch + [x]) && IsChain(t', ch + [x])
  {
    if ch != [] {
      ExtendChain(t, ch, x, eoc);
    }
  }

  lemma {:induction false} GrowsRefl(t: seq<nat>, ch: seq<nat>)
    ensures Grows(t, t, ch, ch)
  {
  }

  // ---------------------------------------------------------------- whole sectors

  lemma {:induction false} RunSector(g: Geometry, ch: seq<nat>, i: nat, m: nat)
    requires g.Valid() && Quot(i, g.csize) < |ch| && Rem(i, g.csize) + m < g.csize
    ensures Quot(i + m, g.csize) == Quot(i, g.csize)
    ensures FileSector(g, ch, i + m) == FileSector(g, ch, i) + m
  {
    QuotStep(i, m, g.csize);
  }

  /** A byte outside the stored range lies in none of the stored sectors. */
  lemma {:induction false} OutsideRun(g: Geometry, t: seq<nat>, ch: seq<nat>, pos: nat, cc: nat, q: nat)
    requires g.Valid() && |t| == g.nFatent && IsChain(t, ch) && Rem(pos, g.ss) == 0
    requires ClusterOf(g, pos) < |ch| && ClusterOf(g, q) < |ch| && Rem(Quot(pos, g.ss), g.csize) + cc <= g.csize
    requires q < pos || q >= pos + Product(cc, g.ss)
    ensures var s, r := FileSector(g, ch, Quot(pos, g.ss)), FileSector(g, ch, Quot(q, g.ss)); !(s <= r < s + cc)
  {
    var i, j := Quot(pos, g.ss), Quot(q, g.ss);
    var s, r := FileSector(g, ch, i), FileSector(g, ch, j);
    if s <= r < s + cc {
      var m := r - s;
      RunSector(g, ch, i, m);
      if j != i + m {
        FileSectorInjective(g, t, ch, j, i + m);
      }
      QuotProduct(pos, g.ss);
      QuotProduct(q, g.ss);
      ProductMono(i, j, g.ss);
      ProductSum(i, m, g.ss);
      ProductGap(m, cc, g.ss);
    }
  }

  /** A byte inside the stored range is the byte of the data. */
  lemma {:induction false} InsideRun(g: Geometry, d': seq<Sector>, ch: seq<nat>, pos: nat, cc: nat, data: seq<byte>,
                                     k: nat)
    requires g.Valid() && DiskOk(g, d') && Clusters(g, ch)
    requires Rem(pos, g.ss) == 0 && ClusterOf(g, pos) < |ch|
    requires Rem(Quot(pos, g.ss), g.csize) + cc <= g.csize && |data| == Product(cc, g.ss) && k < |data|
    requires var s := FileSector(g, ch, Quot(pos, g.ss));
      s + cc <= g.total && forall r :: s <= r < s + cc ==> d'[r] == Piece(data, 0, cc, r - s, g.ss)
    ensures ClusterOf(g, pos + k) < |ch| && FileByte(g, d', ch, pos + k) == data[k]
  {
    RunIsFile(g, d', ch, pos, cc, k);
    QuotProduct(k, g.ss);
    PieceAt(data, 0, cc, Quot(k, g.ss), g.ss, Rem(k, g.ss));
  }

  /** The bytes of the file after whole sectors were stored. */
  lemma {:induction false} RunByteStored(g: Geometry, d: seq<Sector>, d': seq<Sector>, ch: seq<nat>,
                                         pos: nat, cc: nat, data: seq<byte>, q: nat)
    requires g.Valid() && DiskOk(g, d) && DiskOk(g, d') && IsChain(Table(g, d), ch) && Clusters(g, ch)
    requires Rem(pos, g.ss) == 0 && ClusterOf(g, pos) < |ch| && ClusterOf(g, q) < |ch|
    requires Rem(Quot(pos, g.ss), g.csize) + cc <= g.csize && |data| == Product(cc, g.ss)
    requires FileSector(g, ch, Quot(pos, g.ss)) + cc <= g.total
    requires RunStored(g, d, d', FileSector(g, ch, Quot(pos, g.ss)), cc, data)
    ensures FileByte(g, d', ch, q) == if pos <= q < pos + |data| then data[q - pos] else FileByte(g, d, ch, q)
  {
    if pos <= q < pos + |data| {
      InsideRun(g, d', ch, pos, cc, data, q - pos);
    } else {
      OutsideRun(g, Table(g, d), ch, pos, cc, q);
      FileSectorFacts(g, ch, Quot(q, g.ss));
    }
  }

  /** What was written is the splice of the data into the file. */
  lemma {:induction false} WroteSplices(g: Geometry, d: seq<Sector>, d': seq<Sector>, ch: seq<nat>, ch': seq<nat>,
                                        size: nat, pos: nat, data: seq<byte>)
    requires Wrote(g, d, d', ch, ch', size, pos, data)
    ensures Contents(g, d', ch', Max(size, pos + |data|)) == Splice(Contents(g, d, ch, size), pos, data)
  {
    var n := Max(size, pos + |data|);
    var c, c' := Contents(g, d, ch, size), Contents(g, d', ch', n);
    forall q | 0 <= q < n
      ensures c'[q] == Splice(c, pos, data)[q]
    {
      assert Stored(g, d, d', ch, ch', pos, data, q);
      ContentsAt(g, d', ch', n, q);
      SpliceAt(c, pos, data, q);
      if q < size {
        ContentsAt(g, d, ch, size, q);
      }
    }
  }

  /** Whole sectors stored: the splice of the data into the file. */
  lemma {:induction false} RunWrites(g: Geometry, d: seq<Sector>, d': seq<Sector>, ch: seq<nat>, sclust: nat, size: nat,
                                     pos: nat, clust: nat, dsect: nat, cc: nat, data: seq<byte>)
    requires SeatedOk(g, d, ch, sclust, size, pos, clust) && DiskOk(g, d') && Rem(pos, g.ss) == 0
    requires 1 <= cc && Rem(Quot(pos, g.ss), g.csize) + cc <= g.csize && |data| == Product(cc, g.ss)
    requires pos + |data| < U32 && FileSector(g, ch, Quot(pos, g.ss)) + cc <= g.total
    requires RunStored(g, d, d', FileSector(g, ch, Quot(pos, g.ss)), cc, data)
    ensures FileOk(g, d', ch, sclust, Max(size, pos + |data|), pos + |data|, clust, dsect)
    ensures Table(g, d') == Table(g, d)
    ensures Wrote(g, d, d', ch, ch, size, pos, data)
  {
    var s := FileSector(g, ch, Quot(pos, g.ss));
    ChainClusters(g, Table(g, d), ch);
    ClusterInData(g, clust);
    DataKeeps(g, d, d');
    AtAfterRun(g, ch, pos, cc, clust, dsect);
    GrowsRefl(Table(g, d), ch);
    RunOnly(g, d, d', ch, pos, cc);
    CoversMax(g, ch, size, pos + |data|);
    forall q: nat | q < Max(size, pos + |data|)
      ensures Stored(g, d, d', ch, ch, pos, data, q)
    {
      CoversAt(g, ch, Max(size, pos + |data|), q);
      RunByteStored(g, d, d', ch, pos, cc, data, q);
    }
  }

  /** Sectors behind the FATs do not matter to them. */
  lemma {:induction false} DataKeeps(g: Geometry, d: seq<Sector>, d': seq<Sector>)
    requires g.Valid() && DiskOk(g, d) && DiskOk(g, d')
    requires forall i :: g.fatbase <= i < g.FatEnd() ==> d'[i] == d[i]
    ensures Table(g, d') == Table(g, d) && Keeps(g, d, d')
  {
    TableFrame(g, d, d');
    if Mirrored(g, d) && g.nFats == 2 {
      forall i {:trigger CopiesAgree(g, d', i)} | g.InFat(i)
        ensures CopiesAgree(g, d', i)
      {
        assert CopiesAgree(g, d, i);
      }
    }
  }

  lemma {:induction false} RunOnly(g: Geometry, d: seq<Sector>, d': seq<Sector>, ch: seq<nat>, pos: nat, cc: nat)
    requires g.Valid() && DiskOk(g, d) && DiskOk(g, d') && ClusterOf(g, pos) < |ch| && Clusters(g, ch)
    requires Rem(Quot(pos, g.ss), g.csize) + cc <= g.csize
    requires var s := FileSector(g, ch, Quot(pos, g.ss));
      forall r :: 0 <= r < g.total && !(s <= r < s + cc) ==> d'[r] == d[r]
    ensures OnlyFile(g, d, d', ch)
  {
    var k, s := ClusterOf(g, pos), FileSector(g, ch, Quot(pos, g.ss));
    forall r | 0 <= r < g.total && s <= r < s + cc
      ensures Owned(g, ch, r)
    {
      assert Clust2Sect(g, ch[k]) <= r < Clust2Sect(g, ch[k]) + g.csize;
    }
  }

  // ---------------------------------------------------------------- part of a sector

  lemma {:induction false} PartByteStored(g: Geometry, d: seq<Sector>, d': seq<Sector>, ch: seq<nat>, size: nat,
                                          pos: nat, grow: bool, bs: seq<byte>, q: nat)
    requires g.Valid() && DiskOk(g, d) && DiskOk(g, d') && IsChain(Table(g, d), ch) && Clusters(g, ch)
    requires ClusterOf(g, pos) < |ch| && ClusterOf(g, q) < |ch| && q < Max(size, pos + |bs|)
    requires Rem(pos, g.ss) + |bs| <= g.ss && (grow ==> Rem(pos, g.ss) == 0 && pos >= size)
    requires FileSector(g, ch, Quot(pos, g.ss)) < g.total
    requires PartStored(g, d, d', FileSector(g, ch, Quot(pos, g.ss)), grow, Rem(pos, g.ss), bs)
    ensures FileByte(g, d', ch, q) == if pos <= q < pos + |bs| then bs[q - pos] else FileByte(g, d, ch, q)
  {
    var i, j, o := Quot(pos, g.ss), Quot(q, g.ss), Rem(pos, g.ss);
    var s := FileSector(g, ch, i);
    FileSectorFacts(g, ch, j);
    if pos <= q < pos + |bs| {
      QuotStep(pos, q - pos, g.ss);
      assert d'[s][o..o + |bs|][q - pos] == d'[s][o + q - pos];
    } else if j == i {
      QuotProduct(pos, g.ss);
      QuotProduct(q, g.ss);
      if !grow {
        BlitAt(d[s], o, bs, Rem(q, g.ss));
      }
    } else {
      FileSectorInjective(g, Table(g, d), ch, j, i);
    }
  }

  /** Part of a sector stored: the splice of the bytes into the file. */
  lemma {:induction false} PartWrites(g: Geometry, d: seq<Sector>, d': seq<Sector>, ch: seq<nat>, sclust: nat,
                                      size: nat,
                                      pos: nat, clust: nat, dsect: nat, grow: bool, bs: seq<byte>)
    requires SeatedOk(g, d, ch, sclust, size, pos, clust) && DiskOk(g, d')
    requires dsect == FileSector(g, ch, Quot(pos, g.ss))
    requires 1 <= |bs| && Rem(pos, g.ss) + |bs| <= g.ss && pos + |bs| < U32 && dsect < g.total
    requires grow ==> Rem(pos, g.ss) == 0 && pos >= size
    requires PartStored(g, d, d', dsect, grow, Rem(pos, g.ss), bs)
    ensures FileOk(g, d', ch, sclust, Max(size, pos + |bs|), pos + |bs|, clust, dsect)
    ensures Table(g, d') == Table(g, d)
    ensures Wrote(g, d, d', ch, ch, size, pos, bs)
  {
    ChainClusters(g, Table(g, d), ch);
    FileSectorFacts(g, ch, Quot(pos, g.ss));
    DataKeeps(g, d, d');
    AtAfterPart(g, ch, pos, |bs|, clust, dsect);
    GrowsRefl(Table(g, d), ch);
    CoversMax(g, ch, size, pos + |bs|);
    forall q: nat | q < Max(size, pos + |bs|)
      ensures Stored(g, d, d', ch, ch, pos, bs, q)
    {
      CoversAt(g, ch, Max(size, pos + |bs|), q);
      PartByteStored(g, d, d', ch, size, pos, grow, bs, q);
    }
  }

  /** Two writes side by side, the second where the first ended. */
  lemma {:induction false} WroteTwice(g: Geometry, d0: seq<Sector>, d1: seq<Sector>, d2: seq<Sector>,
                                      c0: seq<nat>, c1: seq<nat>, c2: seq<nat>, size: nat, p: nat, a: seq<byte>,
                                        b: seq<byte>)
    requires Wrote(g, d0, d1, c0, c1, size, p, a) && Wrote(g, d1, d2, c1, c2, Max(size, p + |a|), p + |a|, b)
    requires c2 == [] || IsChain(Table(g, d2), c2)
    ensures Wrote(g, d0, d2, c0, c2, size, p, a + b)
  {
    GrowsTrans(Table(g, d0), Table(g, d1), Table(g, d2), c0, c1, c2);
    OnlyFileTrans(g, d0, d1, d2, c1, c2);
    forall q: nat | q < Max(size, p + |a + b|)
      ensures Stored(g, d0, d2, c0, c2, p, a + b, q)
    {
      assert Stored(g, d1, d2, c1, c2, p + |a|, b, q);
      if q < Max(size, p + |a|) {
        assert Stored(g, d0, d1, c0, c1, p, a, q);
      }
    }
  }

  lemma {:induction false} WroteNothing(g: Geometry, d: seq<Sector>, ch: seq<nat>, size: nat, p: nat)
    requires g.Valid() && DiskOk(g, d) && Clusters(g, ch) && Covers(g, ch, size) && p <= size
    ensures Wrote(g, d, d, ch, ch, size, p, [])
  {
    GrowsRefl(Table(g, d), ch);
    forall q: nat | q < size
      ensures Stored(g, d, d, ch, ch, p, [], q)
    {
      CoversAt(g, ch, size, q);
    }
  }

  lemma {:induction false} CoversMax(g: Geometry, ch: seq<nat>, a: nat, b: nat)
    requires g.Valid() && Covers(g, ch, a) && Covers(g, ch, b)
    ensures Covers(g, ch, Max(a, b))
  {
  }

  /** What create_chain answers when asked for the cluster behind the k-th one of a file. */
  lemma {:induction false} AllocForFile(t: seq<nat>, ch: seq<nat>, k: nat, last: nat)
    requires |t| >= 3 && k <= |ch| && (if k == 0 then ch == [] else IsChain(t, ch))
    ensures var a := Allocate(t, if k == 0 then 0 else ch[k - 1], last);
      && (k < |ch| ==> a == Follow(ch[k]))
      && (k == |ch| && a.Full? ==> FreeCount(t) == 0)
      && (k == |ch| && a.Bad? ==> !NoBad(t))
      && (k == |ch| && a.Fresh? ==> 2 <= a.taken < |t| && t[a.taken] == 0)
      && (k == |ch| ==> !a.Follow?)
  {
    var clst := if k == 0 then 0 else ch[k - 1];
    AllocateSpec(t, clst, last);
    if 0 < k < |ch| {
      assert t[ch[k - 1]] == ch[k];
    }
  }

  /** A fresh cluster behind the file: its bytes stay, its chain is one cluster longer. */
  lemma {:induction false} WroteAlloc(g: Geometry, d: seq<Sector>, d': seq<Sector>, ch: seq<nat>, x: nat, size: nat,
                                      p: nat)
    requires g.Valid() && DiskOk(g, d) && DiskOk(g, d') && FatOnly(g, d, d')
    requires (ch == [] || IsChain(Table(g, d), ch)) && Covers(g, ch, size) && p <= size
    requires IsCluster(g, x) && Table(g, d)[x] == 0
    requires Table(g, d') == AllocTable(Table(g, d), if ch == [] then 0 else ch[|ch| - 1], Fresh(x), Eoc(g.kind))
    ensures Clusters(g, ch) && IsChain(Table(g, d'), ch + [x])
    ensures Wrote(g, d, d', ch, ch + [x], size, p, [])
  {
    var t, t', ch' := Table(g, d), Table(g, d'), ch + [x];
    EocEnds(g);
    ChainClusters(g, t, ch);
    AllocGrows(t, ch, x, Eoc(g.kind));
    ChainClusters(g, t', ch');
    if NoBad(t) {
      NoBadKept(t, if ch == [] then 0 else ch[|ch| - 1], Fresh(x), Eoc(g.kind));
    }
    GrowWrote(g, d, d', ch, x, size, p);
  }

  /** A longer chain over the same data sectors is a write of nothing. */
  lemma {:induction false} GrowWrote(g: Geometry, d: seq<Sector>, d': seq<Sector>, ch: seq<nat>, x: nat, size: nat,
                                     p: nat)
    requires g.Valid() && DiskOk(g, d) && DiskOk(g, d') && SameOutsideFat(g, d, d') && Keeps(g, d, d')
    requires Clusters(g, ch) && Clusters(g, ch + [x]) && Covers(g, ch, size) && p <= size
    requires Grows(Table(g, d), Table(g, d'), ch, ch + [x])
    ensures Wrote(g, d, d', ch, ch + [x], size, p, [])
  {
    var ch' := ch + [x];
    forall q: nat {:trigger Stored(g, d, d', ch, ch', p, [], q)} | q < Max(size, p)
      ensures Stored(g, d, d', ch, ch', p, [], q)
    {
      GrowKeepsBytes(g, d, d', ch, ch', size, p, q);
    }
  }

  /** The chain was followed, or grown, up to the cluster of `pos`; the bytes of the file are as before. */
  ghost predicate Followed(g: Geometry, d: seq<Sector>, d': seq<Sector>, ch: seq<nat>, ch': seq<nat>,
                           sclust: nat, size: nat, pos: nat, clust: nat)
  {
    && g.Valid() && DiskOk(g, d) && DiskOk(g, d')
    && Clusters(g, ch) && Clusters(g, ch') && Covers(g, ch, size)
    && SeatedOk(g, d', ch', sclust, size, pos, clust)
    && Wrote(g, d, d', ch, ch', size, pos, [])
  }

  /** `clust` is the cluster of `pos` in a chain that is, or was just grown to be, long enough. */
  ghost predicate Stretched(g: Geometry, d: seq<Sector>, d': seq<Sector>, ch: seq<nat>, ch': seq<nat>,
                            size: nat, pos: nat, clust: nat)
  {
    && g.Valid() && DiskOk(g, d) && DiskOk(g, d')
    && Clusters(g, ch) && Clusters(g, ch') && Covers(g, ch, size) && pos <= size < U32
    && IsChain(Table(g, d'), ch') && (ch != [] ==> ch'[0] == ch[0])
    && ClusterOf(g, pos) < |ch'| && clust == ch'[ClusterOf(g, pos)]
    && Wrote(g, d, d', ch, ch', size, pos, [])
  }

  lemma {:induction false} FollowedBy(g: Geometry, d: seq<Sector>, d': seq<Sector>, ch: seq<nat>, ch': seq<nat>,
                                      sclust: nat, size: nat, pos: nat, clust: nat)
    requires Stretched(g, d, d', ch, ch', size, pos, clust)
    requires if ch == [] then ch'[0] == sclust else ch[0] == sclust
    ensures Followed(g, d, d', ch, ch', sclust, size, pos, clust)
  {
  }

  /** Nothing to do: the chain already has the cluster. */
  lemma {:induction false} StretchedAlready(g: Geometry, d: seq<Sector>, ch: seq<nat>, size: nat, pos: nat, clust: nat)
    requires g.Valid() && DiskOk(g, d) && IsChain(Table(g, d), ch)
    requires Covers(g, ch, size) && pos <= size < U32 && ClusterOf(g, pos) < |ch| && clust == ch[ClusterOf(g, pos)]
    ensures Stretched(g, d, d, ch, ch, size, pos, clust)
  {
    ChainClusters(g, Table(g, d), ch);
    WroteNothing(g, d, ch, size, pos);
  }

  /** create_chain found or took the cluster. */
  lemma {:induction false} StretchedByAlloc(g: Geometry, d: seq<Sector>, d': seq<Sector>, ch: seq<nat>, k: nat,
                                            last: nat,
                                            size: nat, pos: nat)
    requires g.Valid() && DiskOk(g, d) && DiskOk(g, d')
    requires k <= |ch| && (if k == 0 then ch == [] else IsChain(Table(g, d), ch))
    requires Covers(g, ch, size) && pos <= size < U32 && k == ClusterOf(g, pos)
    requires var a := Allocate(Table(g, d), if k == 0 then 0 else ch[k - 1], last);
      && Table(g, d') == AllocTable(Table(g, d), if k == 0 then 0 else ch[k - 1], a, Eoc(g.kind))
      && (if a.Fresh? then FatOnly(g, d, d') else d' == d)
    ensures var a := Allocate(Table(g, d), if k == 0 then 0 else ch[k - 1], last);
      && (a.Bad? ==> !NoBad(Table(g, d)))
      && (a.Full? ==> FreeCount(Table(g, d)) == 0)
      && (a.Follow? ==> Stretched(g, d, d', ch, ch, size, pos, a.next))
      && (a.Fresh? ==> Stretched(g, d, d', ch, ch + [a.taken], size, pos, a.taken))
  {
    var t := Table(g, d);
    var a := Allocate(t, if k == 0 then 0 else ch[k - 1], last);
    AllocForFile(t, ch, k, last);
    if a.Follow? {
      StretchedAlready(g, d, ch, size, pos, a.next);
    } else if a.Fresh? {
      AllocateSpec(t, if k == 0 then 0 else ch[k - 1], last);
      WroteAlloc(g, d, d', ch, a.taken, size, pos);
      ChainClusters(g, Table(g, d'), ch + [a.taken]);
    }
  }

  /** Following the chain and then storing is one write. */
  lemma {:induction false} FollowedThenWrote(g: Geometry, d0: seq<Sector>, d1: seq<Sector>, d2: seq<Sector>,
                                             c0: seq<nat>, c1: seq<nat>, sclust: nat, size: nat, p: nat, clust: nat,
                                               b: seq<byte>)
    requires Followed(g, d0, d1, c0, c1, sclust, size, p, clust) && Wrote(g, d1, d2, c1, c1, size, p, b)
    requires IsChain(Table(g, d2), c1)
    ensures Wrote(g, d0, d2, c0, c1, size, p, b)
  {
    WroteTwice(g, d0, d1, d2, c0, c1, c1, size, p, [], b);
    assert [] + b == b;
  }

  /** One more piece of the data behind what is already written. */
  lemma {:induction false} WroteMore(g: Geometry, d0: seq<Sector>, d1: seq<Sector>, d2: seq<Sector>,
                                     c0: seq<nat>, c1: seq<nat>, c2: seq<nat>, size: nat, p: nat, data: seq<byte>,
                                       n: nat, w: nat)
    requires n + w <= |data| && Wrote(g, d0, d1, c0, c1, size, p, data[..n])
    requires Wrote(g, d1, d2, c1, c2, Max(size, p + n), p + n, data[n..][..w])
    requires c2 == [] || IsChain(Table(g, d2), c2)
    ensures Wrote(g, d0, d2, c0, c2, size, p, data[..n + w])
  {
    PrefixGrows(data, n, w);
    WroteTwice(g, d0, d1, d2, c0, c1, c2, size, p, data[..n], data[n..][..w]);
  }

  /** Clusters that the first `end` bytes of a file take. */
  function Needed(g: Geometry, end: nat): (n: nat)
    requires g.Valid()
  {
    if end == 0 then 0 else ClusterOf(g, end - 1) + 1
  }

  /** The chain has grown to n clusters, and no further, at the expense of the free ones. */
  ghost predicate Spent(t: seq<nat>, t': seq<nat>, ch: seq<nat>, ch': seq<nat>, n: nat) {
    && |t| >= 2 && |t'| >= 2
    && FreeCount(t') + |ch'| == FreeCount(t) + |ch|
    && |ch'| == Max(|ch|, n)
  }

  /** What create_chain costs when asked for the cluster behind the k-th one of a file. */
  lemma {:induction false} AllocSpends(t: seq<nat>, t': seq<nat>, ch: seq<nat>, k: nat, last: nat, eoc: nat)
    requires |t| >= 3 && eoc >= |t| && k <= |ch| && (if k == 0 then ch == [] else IsChain(t, ch))
    requires var clst := if k == 0 then 0 else ch[k - 1];
             t' == AllocTable(t, clst, Allocate(t, clst, last), eoc)
    ensures var a := Allocate(t, if k == 0 then 0 else ch[k - 1], last);
      && (a.Full? ==> k == |ch|)
      && (a.Follow? ==> Spent(t, t', ch, ch, k + 1))
      && (a.Fresh? ==> Spent(t, t', ch, ch + [a.taken], k + 1))
  {
    var clst := if k == 0 then 0 else ch[k - 1];
    AllocForFile(t, ch, k, last);
    AllocateSpec(t, clst, last);
    AllocConserves(t, clst, last, eoc);
  }

  lemma {:induction false} NeededMono(g: Geometry, a: nat, b: nat)
    requires g.Valid() && a <= b
    ensures Needed(g, a) <= Needed(g, b)
  {
    if a > 0 {
      QuotMono(a - 1, b - 1, g.ss);
      QuotMono(Quot(a - 1, g.ss), Quot(b - 1, g.ss), g.csize);
    }
  }

  /** The cluster entered for position p is all that w more bytes inside it take. */
  lemma {:induction false} SpentForRound(g: Geometry, t: seq<nat>, t': seq<nat>, ch: seq<nat>, ch': seq<nat>, p: nat,
                                         w: nat)
    requires g.Valid() && w > 0 && Covers(g, ch', p + w)
    requires Spent(t, t', ch, ch', ClusterOf(g, p) + 1)
    ensures Spent(t, t', ch, ch', Needed(g, p + w))
  {
    NeededMono(g, p + 1, p + w);
  }

  /** Inside a sector no cluster is added. */
  lemma {:induction false} SpentInside(g: Geometry, t: seq<nat>, ch: seq<nat>, end: nat)
    requires g.Valid() && |t| >= 2 && Covers(g, ch, end)
    ensures Spent(t, t, ch, ch, Needed(g, end))
  {
  }

  lemma {:induction false} CoversFront(g: Geometry, ch: seq<nat>, size: nat, end: nat)
    requires g.Valid() && Covers(g, ch, size) && end <= size
    ensures Covers(g, ch, end)
  {
    NeededMono(g, end, size);
  }

  lemma {:induction false} SpentMore(g: Geometry, t0: seq<nat>, t1: seq<nat>, t2: seq<nat>, c0: seq<nat>, c1: seq<nat>,
                                     c2: seq<nat>, p: nat, n: nat, w: nat)
    requires g.Valid()
    requires Spent(t0, t1, c0, c1, if n == 0 then 0 else Needed(g, p + n))
    requires Spent(t1, t2, c1, c2, if w == 0 then 0 else Needed(g, p + n + w))
    ensures Spent(t0, t2, c0, c2, if n + w == 0 then 0 else Needed(g, p + n + w))
  {
    NeededMono(g, p + n, p + n + w);
  }

  /** Bytes from position p to the end of the last cluster the file has or could get. */
  function Room(g: Geometry, clusters: nat, p: nat): (n: nat) {
    var end := Product(clusters, Product(g.csize, g.ss));
    if end > p then end - p else 0
  }

  /** How much of len bytes f_write takes: nothing past 4 GB, else as much as there is room for. */
  ghost function Writable(g: Geometry, t: seq<nat>, ch: seq<nat>, size: nat, p: nat, len: nat): (n: nat)
    requires |t| >= 2
  {
    var room := Room(g, |ch| + FreeCount(t), p);
    if size + len >= U32 then 0 else if len < room then len else room
  }

  /** f_write stops only at the end of the last cluster, or with all data written. */
  lemma {:induction false} WriteIsExact(g: Geometry, t: seq<nat>, t': seq<nat>, ch: seq<nat>, ch': seq<nat>, size: nat,
                                        p: nat, n: nat, len: nat)
    requires g.Valid() && n <= len && size + len < U32 && Covers(g, ch', p + n)
    requires Spent(t, t', ch, ch', if n == 0 then 0 else Needed(g, p + n))
    requires n < len ==> FreeCount(t') == 0 && p + n == Product(|ch'|, Product(g.csize, g.ss))
    ensures n == Writable(g, t, ch, size, p, len)
  {
    var bcs := Product(g.csize, g.ss);
    ProductMono(|ch'|, |ch| + FreeCount(t), bcs);
    if n == len && n > 0 {
      CoversBytes(g, ch', p + n);
    }
  }

  /** It never writes more than there is room for. */
  lemma {:induction false} WriteIsWithin(g: Geometry, t: seq<nat>, t': seq<nat>, ch: seq<nat>, ch': seq<nat>,
                                         size: nat, p: nat, n: nat, len: nat)
    requires g.Valid() && n <= len && size + len < U32 && Covers(g, ch', p + n)
    requires Spent(t, t', ch, ch', if n == 0 then 0 else Needed(g, p + n))
    ensures n <= Writable(g, t, ch, size, p, len)
  {
    ProductMono(|ch'|, |ch| + FreeCount(t), Product(g.csize, g.ss));
    CoversBytes(g, ch', p + n);
  }

  /** A chain that covers a size has that many bytes. */
  lemma {:induction false} CoversBytes(g: Geometry, ch: seq<nat>, size: nat)
    requires g.Valid() && Covers(g, ch, size)
    ensures size <= Product(|ch|, Product(g.csize, g.ss))
  {
    if size > 0 {
      QuotQuot(size - 1, g.ss, g.csize);
      QuotBelow(size - 1, |ch|, Product(g.csize, g.ss));
    }
  }

  /** A cluster boundary is a whole number of clusters. */
  lemma {:induction false} BoundaryBytes(g: Geometry, p: nat)
    requires g.Valid() && Rem(p, g.ss) == 0 && Rem(Quot(p, g.ss), g.csize) == 0
    ensures p == Product(ClusterOf(g, p), Product(g.csize, g.ss))
  {
    QuotProduct(p, g.ss);
    QuotProduct(Quot(p, g.ss), g.csize);
    ProductAssoc(ClusterOf(g, p), g.csize, g.ss);
  }

  /**
   * What create_chain gives a file that needs the cluster of `pos`: none on a full volume, none before a bad entry, or
   * the cluster at its cost.
   */
  ghost predicate Reached(g: Geometry, d: seq<Sector>, d': seq<Sector>, ch: seq<nat>, ch': seq<nat>, size: nat,
                          pos: nat, r: nat) {
    && g.Valid() && DiskOk(g, d) && DiskOk(g, d')
    && (r <= 1 ==> ch' == ch && d' == d)
    && (r == 0 ==> FreeCount(Table(g, d)) == 0 && ClusterOf(g, pos) == |ch|)
    && (r == 1 ==> !NoBad(Table(g, d)))
    && (r > 1 ==>
          && Stretched(g, d, d', ch, ch', size, pos, r)
          && Spent(Table(g, d), Table(g, d'), ch, ch', ClusterOf(g, pos) + 1))
  }

  lemma {:induction false} StretchOutcome(g: Geometry, d: seq<Sector>, d': seq<Sector>, ch: seq<nat>, ch': seq<nat>,
                                          clst: nat, last: nat, a: Alloc, size: nat, pos: nat, r: nat)
    requires g.Valid() && DiskOk(g, d) && DiskOk(g, d')
    requires var k := ClusterOf(g, pos);
      k <= |ch| && if k == 0 then ch == [] && clst == 0 else IsChain(Table(g, d), ch) && clst == ch[k - 1]
    requires Covers(g, ch, size) && pos <= size < U32
    requires a == Allocate(Table(g, d), clst, last) && r == Answer(a)
    requires Table(g, d') == AllocTable(Table(g, d), clst, a, Eoc(g.kind))
    requires if a.Fresh? then FatOnly(g, d, d') && ch' == ch + [a.taken] else d' == d && ch' == ch
    ensures Reached(g, d, d', ch, ch', size, pos, r)
  {
    var k := ClusterOf(g, pos);
    EocEnds(g);
    AllocateSpec(Table(g, d), if k == 0 then 0 else ch[k - 1], last);
    StretchedByAlloc(g, d, d', ch, k, last, size, pos);
    AllocSpends(Table(g, d), Table(g, d'), ch, k, last, Eoc(g.kind));
  }

  /** A round that follows the chain and then stores: what it writes and what it costs. */
  lemma {:induction false} RoundOutcome(g: Geometry, d0: seq<Sector>, d1: seq<Sector>, d2: seq<Sector>, c0: seq<nat>,
                                        c1: seq<nat>,
                                        sclust: nat, size: nat, p: nat, clust: nat, b: seq<byte>)
    requires Followed(g, d0, d1, c0, c1, sclust, size, p, clust) && Wrote(g, d1, d2, c1, c1, size, p, b) && b != []
    requires IsChain(Table(g, d2), c1) && Table(g, d2) == Table(g, d1)
    requires Spent(Table(g, d0), Table(g, d1), c0, c1, ClusterOf(g, p) + 1)
    ensures Wrote(g, d0, d2, c0, c1, size, p, b)
    ensures Spent(Table(g, d0), Table(g, d2), c0, c1, Needed(g, p + |b|))
  {
    FollowedThenWrote(g, d0, d1, d2, c0, c1, sclust, size, p, clust, b);
    CoversFront(g, c1, Max(size, p + |b|), p + |b|);
    SpentForRound(g, Table(g, d0), Table(g, d2), c0, c1, p, |b|);
  }

  /** The first bw bytes of the data went into the file, and the chain grew as far as they need. */
  ghost predicate Took(g: Geometry, d: seq<Sector>, d': seq<Sector>, ch: seq<nat>, ch': seq<nat>, size: nat, p: nat,
                       data: seq<byte>, bw: nat) {
    && bw <= |data|
    && Wrote(g, d, d', ch, ch', size, p, data[..bw])
    && Spent(Table(g, d), Table(g, d'), ch, ch', if bw == 0 then 0 else Needed(g, p + bw))
  }

  /**
   * How much was written against how much could be, when f_write ends with all of it, on a full volume or before that.
   */
  lemma {:induction false} TookWritable(g: Geometry, d: seq<Sector>, d': seq<Sector>, ch: seq<nat>, ch': seq<nat>,
                                        size: nat, p: nat, data: seq<byte>, bw: nat)
    requires Took(g, d, d', ch, ch', size, p, data, bw) && size + |data| < U32
    ensures bw <= Writable(g, Table(g, d), ch, size, p, |data|)
    ensures bw == |data| || (FreeCount(Table(g, d')) == 0 && p + bw == Product(|ch'|, Product(g.csize, g.ss))) ==>
      bw == Writable(g, Table(g, d), ch, size, p, |data|)
    ensures NoBad(Table(g, d)) ==> NoBad(Table(g, d'))
  {
    var t, t' := Table(g, d), Table(g, d');
    CoversFront(g, ch', Max(size, p + bw), p + bw);
    WriteIsWithin(g, t, t', ch, ch', size, p, bw, |data|);
    if bw == |data| || (FreeCount(t') == 0 && p + bw == Product(|ch'|, Product(g.csize, g.ss))) {
      WriteIsExact(g, t, t', ch, ch', size, p, bw, |data|);
    }
  }

  lemma {:induction false} TookMore(g: Geometry, d0: seq<Sector>, d1: seq<Sector>, d2: seq<Sector>, c0: seq<nat>,
                                    c1: seq<nat>, c2: seq<nat>,
                                    size: nat, p: nat, data: seq<byte>, n: nat, w: nat)
    requires Took(g, d0, d1, c0, c1, size, p, data, n) && n + w <= |data|
    requires w == 0 ==> d2 == d1 && c2 == c1
    requires w > 0 ==>
      && Wrote(g, d1, d2, c1, c2, Max(size, p + n), p + n, data[n..][..w]) && IsChain(Table(g, d2), c2)
      && Spent(Table(g, d1), Table(g, d2), c1, c2, Needed(g, p + n + w))
    ensures Took(g, d0, d2, c0, c2, size, p, data, n + w)
  {
    if w > 0 {
      WroteMore(g, d0, d1, d2, c0, c1, c2, size, p, data, n, w);
      SpentMore(g, Table(g, d0), Table(g, d1), Table(g, d2), c0, c1, c2, p, n, w);
    }
  }

  lemma {:induction false} TookNothing(g: Geometry, d: seq<Sector>, ch: seq<nat>, size: nat, p: nat, data: seq<byte>)
    requires g.Valid() && DiskOk(g, d) && Clusters(g, ch) && Covers(g, ch, size) && p <= size
    ensures Took(g, d, d, ch, ch, size, p, data, 0)
  {
    WroteNothing(g, d, ch, size, p);
    assert data[..0] == [];
  }

  /** The overflow test of f_write, on 32 bits. */
  lemma {:induction false} SizeWraps(size: nat, n: nat)
    requires size < U32 && n < U32
    ensures (size + n) % U32 < size <==> size + n >= U32
  {
  }
}
