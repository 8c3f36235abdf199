/** The position of a file object: its current cluster and sector against its chain. */
module FatPosition {
  import opened Arithmetic
  import opened Bytes
  import opened FatGeometry
  import opened FatTable
  import opened FatChains
  import opened FatLayout
  import opened FatVolume

  /** The first cluster of the file object starts the chain; 0 stands for no chain. */
  ghost predicate Anchored(t: seq<nat>, ch: seq<nat>, sclust: nat) {
    && (ch == [] <==> sclust == 0)
    && (ch != [] ==> IsChain(t, ch) && ch[0] == sclust)
  }

  /** Index in the chain of the cluster that holds byte `p`. */
  function ClusterOf(g: Geometry, p: nat): (k: nat)
    requires g.Valid()
  {
    Quot(Quot(p, g.ss), g.csize)
  }

  /** `clust` holds the byte before `pos`; inside a sector, `dsect` is that sector. */
  ghost predicate At(g: Geometry, ch: seq<nat>, pos: nat, clust: nat, dsect: nat)
    requires g.Valid()
  {
    && (pos > 0 ==> ClusterOf(g, pos - 1) < |ch| && clust == ch[ClusterOf(g, pos - 1)])
    && (Rem(pos, g.ss) != 0 ==> ClusterOf(g, pos) < |ch| && dsect == FileSector(g, ch, Quot(pos, g.ss)))
  }

  /** What the position says about the cluster that holds `pos` itself. */
  lemma {:induction false} AtEnters(g: Geometry, ch: seq<nat>, pos: nat, clust: nat, dsect: nat)
    requires g.Valid() && At(g, ch, pos, clust, dsect)
    ensures Rem(pos, g.ss) != 0 || Rem(Quot(pos, g.ss), g.csize) != 0 ==>
      ClusterOf(g, pos) < |ch| && clust == ch[ClusterOf(g, pos)]
    ensures Rem(pos, g.ss) == 0 && Rem(Quot(pos, g.ss), g.csize) == 0 && pos > 0 ==>
      1 <= ClusterOf(g, pos) <= |ch| && clust == ch[ClusterOf(g, pos) - 1]
    ensures pos == 0 ==> ClusterOf(g, pos) == 0
  {
    if pos > 0 {
      QuotPrev(pos, g.ss);
      if Rem(pos, g.ss) == 0 {
        QuotPrev(Quot(pos, g.ss), g.csize);
      }
    }
  }

  /** After `cc` whole sectors inside one cluster. */
  lemma {:induction false} AtAfterRun(g: Geometry, ch: seq<nat>, pos: nat, cc: nat, clust: nat, dsect: nat)
    requires g.Valid() && Rem(pos, g.ss) == 0 && ClusterOf(g, pos) < |ch| && clust == ch[ClusterOf(g, pos)]
    requires 1 <= cc && Rem(Quot(pos, g.ss), g.csize) + cc <= g.csize
    ensures At(g, ch, pos + Product(cc, g.ss), clust, dsect)
    ensures Product(cc, g.ss) >= g.ss
    ensures ClusterOf(g, pos + Product(cc, g.ss) - 1) == ClusterOf(g, pos)
  {
    ProductGap(0, cc, g.ss);
    QuotAdd(pos, cc, g.ss);
    QuotPrev(pos + Product(cc, g.ss), g.ss);
    QuotStep(Quot(pos, g.ss), cc - 1, g.csize);
  }

  /** After `n` bytes inside one sector. */
  lemma {:induction false} AtAfterPart(g: Geometry, ch: seq<nat>, pos: nat, n: nat, clust: nat, dsect: nat)
    requires g.Valid() && ClusterOf(g, pos) < |ch| && clust == ch[ClusterOf(g, pos)]
    requires dsect == FileSector(g, ch, Quot(pos, g.ss))
    requires 1 <= n && Rem(pos, g.ss) + n <= g.ss
    ensures At(g, ch, pos + n, clust, dsect)
    ensures ClusterOf(g, pos + n - 1) == ClusterOf(g, pos)
  {
    if Rem(pos, g.ss) + n < g.ss {
      QuotStep(pos, n, g.ss);
    } else {
      QuotNext(pos, n, g.ss);
    }
    QuotPrev(pos + n, g.ss);
  }

  /** The bytes of a run of sectors inside one cluster are consecutive bytes of the file. */
  lemma {:induction false} RunIsFile(g: Geometry, d: seq<Sector>, ch: seq<nat>, pos: nat, cc: nat, k: nat)
    requires g.Valid() && DiskOk(g, d) && Clusters(g, ch) && Rem(pos, g.ss) == 0 && ClusterOf(g, pos) < |ch|
    requires Rem(Quot(pos, g.ss), g.csize) + cc <= g.csize && k < Product(cc, g.ss)
    requires FileSector(g, ch, Quot(pos, g.ss)) + cc <= g.total
    ensures ClusterOf(g, pos + k) == ClusterOf(g, pos)
    ensures Quot(pos + k, g.ss) == Quot(pos, g.ss) + Quot(k, g.ss) && Rem(pos + k, g.ss) == Rem(k, g.ss)
    ensures FileSector(g, ch, Quot(pos + k, g.ss)) == FileSector(g, ch, Quot(pos, g.ss)) + Quot(k, g.ss)
    ensures Quot(k, g.ss) < cc
    ensures FileByte(g, d, ch, pos + k) == RunByte(g, d, FileSector(g, ch, Quot(pos, g.ss)), cc, k)
  {
    var i := Quot(pos, g.ss);
    QuotProduct(pos, g.ss);
    QuotAdd(k, i, g.ss);
    QuotBelow(k, cc, g.ss);
    QuotStep(i, Quot(k, g.ss), g.csize);
  }

  /** The bytes of the current sector from `pos` on. */
  lemma {:induction false} PartIsFile(g: Geometry, d: seq<Sector>, ch: seq<nat>, pos: nat, k: nat)
    requires g.Valid() && DiskOk(g, d) && Clusters(g, ch) && ClusterOf(g, pos) < |ch|
    requires Rem(pos, g.ss) + k < g.ss
    ensures ClusterOf(g, pos + k) == ClusterOf(g, pos) && Quot(pos + k, g.ss) == Quot(pos, g.ss)
    ensures FileSector(g, ch, Quot(pos, g.ss)) < g.total
    ensures FileByte(g, d, ch, pos + k) == d[FileSector(g, ch, Quot(pos, g.ss))][Rem(pos, g.ss) + k]
  {
    QuotStep(pos, k, g.ss);
    FileSectorFacts(g, ch, Quot(pos, g.ss));
  }

  /** A run of sectors is a slice of the file. */
  lemma {:induction false} RunContents(g: Geometry, d: seq<Sector>, ch: seq<nat>, size: nat, pos: nat, cc: nat)
    requires g.Valid() && DiskOk(g, d) && Clusters(g, ch) && Covers(g, ch, size)
    requires Rem(pos, g.ss) == 0 && ClusterOf(g, pos) < |ch|
    requires Rem(Quot(pos, g.ss), g.csize) + cc <= g.csize && pos + Product(cc, g.ss) <= size
    requires FileSector(g, ch, Quot(pos, g.ss)) + cc <= g.total
    ensures RunBytes(g, d, FileSector(g, ch, Quot(pos, g.ss)), cc)
      == Contents(g, d, ch, size)[pos..pos + Product(cc, g.ss)]
  {
    var r, c := RunBytes(g, d, FileSector(g, ch, Quot(pos, g.ss)), cc), Contents(g, d, ch, size);
    forall k | 0 <= k < |r|
      ensures r[k] == c[pos..pos + |r|][k]
    {
      RunIsFile(g, d, ch, pos, cc, k);
      ContentsAt(g, d, ch, size, pos + k);
    }
  }

  /** Part of a sector is a slice of the file. */
  lemma {:induction false} PartContents(g: Geometry, d: seq<Sector>, ch: seq<nat>, size: nat, pos: nat, n: nat)
    requires g.Valid() && DiskOk(g, d) && Clusters(g, ch) && Covers(g, ch, size)
    requires ClusterOf(g, pos) < |ch| && Rem(pos, g.ss) + n <= g.ss && pos + n <= size
    ensures FileSector(g, ch, Quot(pos, g.ss)) < g.total
    ensures d[FileSector(g, ch, Quot(pos, g.ss))][Rem(pos, g.ss)..Rem(pos, g.ss) + n]
      == Contents(g, d, ch, size)[pos..pos + n]
  {
    FileSectorFacts(g, ch, Quot(pos, g.ss));
    var r, c := d[FileSector(g, ch, Quot(pos, g.ss))][Rem(pos, g.ss)..Rem(pos, g.ss) + n], Contents(g, d, ch, size);
    forall k | 0 <= k < n
      ensures r[k] == c[pos..pos + n][k]
    {
      PartIsFile(g, d, ch, pos, k);
      ContentsAt(g, d, ch, size, pos + k);
    }
  }

  /** The whole of a file object against the logical disk. */
  ghost predicate FileOk(g: Geometry, d: seq<Sector>, ch: seq<nat>, sclust: nat, size: nat,
                         pos: nat, clust: nat, dsect: nat)
  {
    && g.Valid() && DiskOk(g, d)
    && Anchored(Table(g, d), ch, sclust)
    && Covers(g, ch, size)
    && pos <= size < U32
    && At(g, ch, pos, clust, dsect)
  }

  /** Ready to move data at `pos`: the current cluster is the one that holds it. */
  ghost predicate SeatedOk(g: Geometry, d: seq<Sector>, ch: seq<nat>, sclust: nat, size: nat, pos: nat, clust: nat) {
    && g.Valid() && DiskOk(g, d)
    && Anchored(Table(g, d), ch, sclust)
    && Covers(g, ch, size)
    && pos <= size < U32
    && ClusterOf(g, pos) < |ch| && clust == ch[ClusterOf(g, pos)]
  }

  /** Whole sectors moved: a run of sectors is the next slice of the file. */
  lemma {:induction false} RunMoves(g: Geometry, d: seq<Sector>, ch: seq<nat>, sclust: nat, size: nat,
                 pos: nat, clust: nat, dsect: nat, cc: nat)
    requires SeatedOk(g, d, ch, sclust, size, pos, clust) && Rem(pos, g.ss) == 0
    requires 1 <= cc && Rem(Quot(pos, g.ss), g.csize) + cc <= g.csize && pos + Product(cc, g.ss) <= size
    ensures FileOk(g, d, ch, sclust, size, pos + Product(cc, g.ss), clust, dsect) && Product(cc, g.ss) >= 1
    ensures var s := FileSector(g, ch, Quot(pos, g.ss));
      && g.FatEnd() <= s && s + cc <= g.total
      && RunBytes(g, d, s, cc) == Contents(g, d, ch, size)[pos..pos + Product(cc, g.ss)]
  {
    ClusterInData(g, clust);
    AtAfterRun(g, ch, pos, cc, clust, dsect);
    RunContents(g, d, ch, size, pos, cc);
  }

  /** Part of a sector moved. */
  lemma {:induction false} PartMoves(g: Geometry, d: seq<Sector>, ch: seq<nat>, sclust: nat, size: nat,
                  pos: nat, clust: nat, dsect: nat, n: nat)
    requires SeatedOk(g, d, ch, sclust, size, pos, clust) && dsect == FileSector(g, ch, Quot(pos, g.ss))
    requires 1 <= n && Rem(pos, g.ss) + n <= g.ss && pos + n <= size
    ensures FileOk(g, d, ch, sclust, size, pos + n, clust, dsect)
    ensures g.FatEnd() <= dsect < g.total
    ensures d[dsect][Rem(pos, g.ss)..Rem(pos, g.ss) + n] == Contents(g, d, ch, size)[pos..pos + n]
  {
    FileSectorFacts(g, ch, Quot(pos, g.ss));
    AtAfterPart(g, ch, pos, n, clust, dsect);
    PartContents(g, d, ch, size, pos, n);
  }

  /** The position `k` clusters and `ofs` bytes into the file, as f_lseek leaves it. */
  lemma {:induction false} SeekLands(g: Geometry, ch: seq<nat>, k: nat, ofs: nat, clust: nat, dsect: nat)
    requires g.Valid() && k < |ch| && clust == ch[k] && 1 <= ofs <= Product(g.csize, g.ss)
    requires Rem(ofs, g.ss) != 0 ==> dsect == Clust2Sect(g, clust) + Quot(ofs, g.ss)
    ensures At(g, ch, Product(k, Product(g.csize, g.ss)) + ofs, clust, dsect)
    ensures Rem(Product(k, Product(g.csize, g.ss)) + ofs, g.ss) == Rem(ofs, g.ss)
  {
    var bcs := Product(g.csize, g.ss);
    var pos := Product(k, bcs) + ofs;
    QuotQuot(pos - 1, g.ss, g.csize);
    QuotUnique(pos - 1, bcs, k, ofs - 1);
    ProductAssoc(k, g.csize, g.ss);
    QuotAdd(ofs, Product(k, g.csize), g.ss);
    if Rem(ofs, g.ss) != 0 {
      QuotBelow(ofs, g.csize, g.ss);
      QuotProduct(ofs, g.ss);
      if ofs == bcs {
        QuotUnique(ofs, g.ss, g.csize, 0);
      }
      QuotUnique(Quot(pos, g.ss), g.csize, k, Quot(ofs, g.ss));
    }
  }
}

/** File objects: f_read, f_write and f_lseek against the bytes of the file. */
module FatFile {
  import opened Arithmetic
  import opened Bytes
  import opened FatGeometry
  import opened FatTable
  import opened FatChains
  import opened FatLayout
  import opened FatVolume
  import opened FatPosition
  import opened FatWrite

  /** The cluster of the next byte to write: at hand, not to be had on a full volume, or hidden behind a bad entry. */
  datatype Place = AtHand | NoRoom | Broken

  class File {
    const fs: Volume
    var fptr: nat
    var fsize: nat
    var sclust: nat
    var clust: nat
    var dsect: nat
    var readable: bool
    var writable: bool
    var aborted: bool
    var written: bool
    ghost var chain: seq<nat>

    ghost predicate Valid()
      reads this, fs`disk, fs`winsect, fs`wflag, fs.win
    {
      fs.Valid() && FileOk(fs.g, fs.Logical(), chain, sclust, fsize, fptr, clust, dsect)
    }

    /** A file object that may have been aborted: then nothing is known of it any more. */
    ghost predicate Usable()
      reads this, fs`disk, fs`winsect, fs`wflag, fs.win
    {
      fs.Valid() && (!aborted ==> Valid())
    }

    /** f_open on an existing directory entry: start cluster and size as found there. */
    constructor (volume: Volume, first: nat, size: nat, read: bool, write: bool, ghost ch: seq<nat>)
      requires volume.Valid() && Anchored(volume.Entries(), ch, first) && Covers(volume.g, ch, size) && size < U32
      ensures Valid() && fs == volume && fptr == 0 && fsize == size && chain == ch && !aborted
      ensures readable == read && writable == write
    {
      fs := volume;
      fptr, fsize, sclust, clust, dsect := 0, size, first, 0, 0;
      readable, writable, aborted, written := read, write, false, false;
      chain := ch;
    }

    /** The file as a byte sequence. */
    ghost function Bytes(): (b: seq<byte>)
      requires Valid()
      reads this, fs`disk, fs`winsect, fs`wflag, fs.win
      ensures |b| == fsize
    {
      Contents(fs.g, fs.Logical(), chain, fsize)
    }

    /** Ready to move data at `fptr`: the current cluster is the one that holds it. */
    ghost predicate Seated()
      reads this, fs`disk, fs`winsect, fs`wflag, fs.win
    {
      fs.Valid() && SeatedOk(fs.g, fs.Logical(), chain, sclust, fsize, fptr, clust)
    }

    /** On a sector boundary, find the cluster of the next byte to read. */
    method FollowForRead()
      requires Valid() && fptr < fsize && Rem(fptr, fs.g.ss) == 0
      modifies this`clust, fs`disk, fs`winsect, fs`wflag, fs.win
      ensures Seated() && fs.Logical() == old(fs.Logical())
    {
      ghost var g, k := fs.g, ClusterOf(fs.g, fptr);
      CoversAt(g, chain, fsize, fptr);
      AtEnters(g, chain, fptr, clust, dsect);
      var csect := Rem(Quot(fptr, fs.g.ss), fs.g.csize);
      if csect == 0 {
        var clst;
        if fptr == 0 {
          clst := sclust;
        } else {
          assert fs.Entries()[chain[k - 1]] == chain[k];
          clst := fs.EntryOf(clust);
        }
        if clst < 2 {
          assert false;  // ABORT(FR_INT_ERR)
        }
        clust := clst;
      }
    }

    /** Whole sectors straight from the disk. */
    method ReadRun(sect: nat, cc: nat) returns (bs: seq<byte>)
      requires Seated() && Rem(fptr, fs.g.ss) == 0 && sect == FileSector(fs.g, chain, Quot(fptr, fs.g.ss))
      requires 1 <= cc && Rem(Quot(fptr, fs.g.ss), fs.g.csize) + cc <= fs.g.csize
      requires fptr + Product(cc, fs.g.ss) <= fsize
      modifies this`fptr
      ensures Valid() && |bs| == Product(cc, fs.g.ss) >= 1 && fptr == old(fptr) + |bs|
      ensures bs == Bytes()[old(fptr)..fptr]
    {
      ghost var d, p, n := fs.Logical(), fptr, Product(cc, fs.g.ss);
      RunMoves(fs.g, d, chain, sclust, fsize, p, clust, dsect, cc);
      ghost var b := Contents(fs.g, d, chain, fsize);
      assert RunBytes(fs.g, d, sect, cc) == b[p..p + n];
      bs := fs.ReadDirect(sect, cc);
      fptr := fptr + Product(cc, fs.g.ss);
      assert fs.Logical() == d;
      assert Bytes() == b;
    }

    /** Part of a sector through the window. */
    method ReadPart(n: nat) returns (bs: seq<byte>)
      requires Seated() && dsect == FileSector(fs.g, chain, Quot(fptr, fs.g.ss))
      requires 1 <= n && Rem(fptr, fs.g.ss) + n <= fs.g.ss && fptr + n <= fsize
      modifies this`fptr, fs`disk, fs`winsect, fs`wflag, fs.win
      ensures Valid() && fs.Logical() == old(fs.Logical()) && fptr == old(fptr) + n && |bs| == n
      ensures bs == Bytes()[old(fptr)..fptr]
    {
      ghost var d, p := fs.Logical(), fptr;
      var o := Rem(fptr, fs.g.ss);
      PartMoves(fs.g, d, chain, sclust, fsize, p, clust, dsect, n);
      ghost var b := Contents(fs.g, d, chain, fsize);
      assert d[dsect][o..o + n] == b[p..p + n];
      bs := fs.LoadAt(dsect, o, n);
      fptr := fptr + n;
      assert fs.Logical() == d;
      assert Bytes() == b;
    }

    /** One round of the loop of f_read: the next bytes, at most `btr` of them. */
    method ReadRound(btr: nat) returns (bs: seq<byte>)
      requires Valid() && 1 <= btr && fptr + btr <= fsize
      modifies this`fptr, this`clust, this`dsect, fs`disk, fs`winsect, fs`wflag, fs.win
      ensures Valid() && fs.Logical() == old(fs.Logical())
      ensures 1 <= |bs| <= btr && fptr == old(fptr) + |bs|
      ensures bs == Bytes()[old(fptr)..fptr]
    {
      var ss := fs.g.ss;
      AtEnters(fs.g, chain, fptr, clust, dsect);
      if Rem(fptr, ss) == 0 {
        FollowForRead();
        ClusterInData(fs.g, clust);
        var csect := Rem(Quot(fptr, ss), fs.g.csize);
        var sect := Clust2Sect(fs.g, clust);
        if sect == 0 {
          assert false;  // ABORT(FR_INT_ERR)
        }
        sect := sect + csect;
        var cc := Quot(btr, ss);
        if cc > 0 {
          QuotProduct(btr, ss);
          if csect + cc > fs.g.csize {
            cc := fs.g.csize - csect;
          }
          ProductMono(cc, Quot(btr, ss), ss);
          bs := ReadRun(sect, cc);
          return;
        }
        dsect := sect;
      }
      var rcnt := ss - Rem(fptr, ss);
      if rcnt > btr {
        rcnt := btr;
      }
      bs := ReadPart(rcnt);
    }

    /** The loop of f_read, for a count already cut to the bytes that remain. */
    method ReadLoop(buff: array<byte>, btr: nat)
      requires Valid() && buff != fs.win && btr <= buff.Length && fptr + btr <= fsize
      modifies this`fptr, this`clust, this`dsect, fs`disk, fs`winsect, fs`wflag, fs.win, buff
      ensures Valid() && fs.Logical() == old(fs.Logical()) && fptr == old(fptr) + btr
      ensures buff[..] == Blit(old(buff[..]), 0, Bytes()[old(fptr)..fptr])
    {
      ghost var p, b, b0 := fptr, Bytes(), buff[..];
      var br := 0;
      while br < btr
        invariant Valid() && fs.Logical() == old(fs.Logical())
        invariant br <= btr && fptr == p + br
        invariant buff[..] == Blit(b0, 0, b[p..fptr])
      {
        ghost var q := fptr;
        var bs := ReadRound(btr - br);
        assert bs == b[q..fptr];
        MemCpy(buff, br, bs);
        BlitSplit(b0, 0, b[p..q], bs);
        SliceGrows(b, p, q, fptr);
        br := br + |bs|;
      }
    }

    /** f_read. */
    method Read(buff: array<byte>, btr: nat) returns (res: FResult, br: nat)
      requires Usable() && buff != fs.win && btr <= buff.Length
      modifies this`fptr, this`clust, this`dsect, fs`disk, fs`winsect, fs`wflag, fs.win, buff
      ensures Usable() && fs.Logical() == old(fs.Logical())
      ensures res == if aborted then IntErr else if !readable then Denied else Ok
      ensures br == if res != Ok then 0 else if btr > fsize - old(fptr) then fsize - old(fptr) else btr
      ensures fptr == old(fptr) + br
      ensures if aborted then buff[..] == old(buff[..])
              else buff[..] == Blit(old(buff[..]), 0, Bytes()[old(fptr)..fptr])
    {
      br := 0;
      if aborted {
        res := IntErr;
      } else if !readable {
        res := Denied;
      } else {
        res := Ok;
        br := btr;
        var remain := fsize - fptr;
        if br > remain {
          br := remain;
        }
        ReadLoop(buff, br);
      }
    }

    // -------------------------------------------------------------- f_lseek

    /** The cluster following loop of f_lseek: from cluster `k0` of the chain to the one that holds `ofs`. */
    method FollowTo(start: nat, first: nat, distance: nat, ghost k0: nat)
      returns (at: nat, clst: nat, ofs: nat, ghost k: nat)
      requires fs.Valid() && IsChain(fs.Entries(), chain) && Covers(fs.g, chain, fsize)
      requires k0 < |chain| && first == chain[k0] && distance >= 1
      requires start == Product(k0, Product(fs.g.csize, fs.g.ss)) && start + distance <= fsize
      modifies fs`disk, fs`winsect, fs`wflag, fs.win
      ensures fs.Valid() && fs.Logical() == old(fs.Logical())
      ensures k < |chain| && clst == chain[k] && 1 <= ofs <= Product(fs.g.csize, fs.g.ss)
      ensures at == Product(k, Product(fs.g.csize, fs.g.ss)) && at + ofs == start + distance
    {
      var bcs := Product(fs.g.csize, fs.g.ss);
      ghost var t, l := fs.Entries(), fs.Logical();
      at, clst, ofs, k := start, first, distance, k0;
      QuotQuot(0, fs.g.ss, fs.g.csize);
      while ofs > bcs
        invariant fs.Valid() && fs.Logical() == l && ofs >= 1
        invariant k < |chain| && clst == chain[k] && at == Product(k, bcs) && at + ofs == start + distance
        decreases ofs
      {
        CoversAt(fs.g, chain, fsize, at + ofs - 1);
        QuotQuot(at + ofs - 1, fs.g.ss, fs.g.csize);
        QuotBelow(at + ofs - 1, k + 1, bcs);
        assert t[chain[k]] == chain[k + 1];
        clst := fs.EntryOf(clst);
        if clst <= 1 || clst >= fs.g.nFatent {
          assert false;  // ABORT(FR_INT_ERR)
        }
        at, ofs, k := at + bcs, ofs - bcs, k + 1;
      }
    }

    /** f_lseek, built without stretching: the offset is cut at the file size. */
    method Seek(target: nat) returns (res: FResult)
      requires Usable() && target < U32
      modifies this`fptr, this`clust, this`dsect, fs`disk, fs`winsect, fs`wflag, fs.win
      ensures Usable() && fs.Logical() == old(fs.Logical())
      ensures res == if aborted then IntErr else Ok
      ensures fptr == if aborted then old(fptr) else if target > fsize then fsize else target
    {
      if aborted {
        return IntErr;
      }
      res := Ok;
      var ofs := target;
      if ofs > fsize {
        ofs := fsize;
      }
      if ofs == 0 {
        fptr := 0;
      } else {
        SeekForward(ofs);
      }
    }

    /** Where f_lseek starts to follow the chain: the current cluster, or the first one when seeking back. */
    method SeekStart(ofs: nat) returns (start: nat, clst: nat, ghost k: nat)
      requires Valid() && 1 <= ofs <= fsize
      ensures k < |chain| && clst == chain[k] && IsChain(fs.Entries(), chain)
      ensures start == Product(k, Product(fs.g.csize, fs.g.ss)) && start < ofs
    {
      var bcs := Product(fs.g.csize, fs.g.ss);
      QuotQuot(ofs - 1, fs.g.ss, fs.g.csize);
      CoversAt(fs.g, chain, fsize, ofs - 1);
      start, clst, k := 0, sclust, 0;
      if fptr > 0 && Quot(ofs - 1, bcs) >= Quot(fptr - 1, bcs) {
        QuotQuot(fptr - 1, fs.g.ss, fs.g.csize);
        k := Quot(fptr - 1, bcs);
        QuotBelow(ofs - 1, k, bcs);
        start := Product(Quot(fptr - 1, bcs), bcs);
        clst := clust;
      }
    }

    /** f_lseek to an offset inside the file other than 0. */
    method SeekForward(ofs: nat)
      requires Valid() && 1 <= ofs <= fsize
      modifies this`fptr, this`clust, this`dsect, fs`disk, fs`winsect, fs`wflag, fs.win
      ensures Valid() && fs.Logical() == old(fs.Logical()) && fptr == ofs
    {
      ghost var k;
      var start, clst;
      start, clst, k := SeekStart(ofs);
      if clst == 0 {
        assert false;  // the chain covers the offset
      }
      var at, rest;
      at, clst, rest, k := FollowTo(start, clst, ofs - start, k);
      var nsect := 0;
      if Rem(rest, fs.g.ss) != 0 {
        nsect := Clust2Sect(fs.g, clst);
        nsect := nsect + Quot(rest, fs.g.ss);
      }
      SeekLands(fs.g, chain, k, rest, clst, if Rem(rest, fs.g.ss) != 0 then nsect else dsect);
      clust := clst;
      fptr := at + rest;
      if Rem(fptr, fs.g.ss) != 0 && nsect != dsect {
        dsect := nsect;
      }
    }

    // -------------------------------------------------------------- f_write

    /** While f_write runs the position may be ahead of the recorded size. */
    ghost function Reach(): (n: nat)
      reads this`fptr, this`fsize
    {
      Max(fsize, fptr)
    }

    ghost predicate Writing()
      reads this, fs`disk, fs`winsect, fs`wflag, fs.win
    {
      fs.Valid() && FileOk(fs.g, fs.Logical(), chain, sclust, Reach(), fptr, clust, dsect)
    }

    /** create_chain behind the cluster before the current position (0: a first cluster). */
    method Stretch(clst: nat) returns (r: nat)
      requires Writing()
      requires var k := ClusterOf(fs.g, fptr);
        k <= |chain| && if k == 0 then chain == [] && clst == 0 else chain != [] && clst == chain[k - 1]
      modifies this`chain, fs, fs.win
      ensures fs.Valid() && Reached(fs.g, old(fs.Logical()), fs.Logical(), old(chain), chain, Reach(), fptr, r)
      ensures old(fs.FreeExact()) ==> fs.FreeExact()
    {
      ghost var d, ch, last := fs.Logical(), chain, fs.lastClust;
      ghost var a := Allocate(fs.Entries(), clst, last);
      r := fs.CreateChain(clst);
      chain := if a.Fresh? then ch + [a.taken] else ch;
      ghost var d' := fs.Logical();
      StretchOutcome(fs.g, d, d', ch, chain, clst, last, a, Reach(), fptr, r);
    }

    /** The search for the next cluster ended without one, and changed nothing on the volume. */
    twostate predicate Nowhere(place: Place)
      reads this, fs`disk, fs`winsect, fs`wflag, fs.win
    {
      && old(fs.Valid()) && fs.Valid() && chain == old(chain) && fs.Logical() == old(fs.Logical())
      && (place == NoRoom ==> Writing() && Stuck())
      && (place == Broken ==> !NoBad(fs.Entries()))
    }

    /** On a cluster boundary, follow or stretch the chain to the cluster of the next byte to write. */
    method EnterCluster() returns (place: Place)
      requires Writing() && Rem(fptr, fs.g.ss) == 0 && Rem(Quot(fptr, fs.g.ss), fs.g.csize) == 0
      modifies this`sclust, this`clust, this`chain, fs, fs.win
      ensures fs.Valid()
      ensures place != AtHand ==> Nowhere(place)
      ensures place == AtHand ==>
        Followed(fs.g, old(fs.Logical()), fs.Logical(), old(chain), chain, sclust, Reach(), fptr, clust)
      ensures place == AtHand ==> Spent(old(fs.Entries()), fs.Entries(), old(chain), chain, ClusterOf(fs.g, fptr) + 1)
      ensures old(fs.FreeExact()) ==> fs.FreeExact()
    {
      ghost var d, ch := fs.Logical(), chain;
      var clst := Locate();
      if clst == 0 {
        BoundaryBytes(fs.g, fptr);
        place := NoRoom;
      } else if clst == 1 {
        place := Broken;
      } else {
        clust := clst;
        place := AtHand;
        FollowedBy(fs.g, d, fs.Logical(), ch, chain, sclust, Reach(), fptr, clust);
      }
    }

    /**
     * The cluster at a cluster boundary: the first one, the next one, or a new one; 0 when the volume is full, 1 on a
     * bad entry.
     */
    method Locate() returns (clst: nat)
      requires Writing() && Rem(fptr, fs.g.ss) == 0 && Rem(Quot(fptr, fs.g.ss), fs.g.csize) == 0
      modifies this`sclust, this`chain, fs, fs.win
      ensures fs.Valid()
      ensures clst == 0 ==> Writing() && FreeCount(fs.Entries()) == 0 && ClusterOf(fs.g, fptr) == |chain|
      ensures clst == 1 ==> !NoBad(fs.Entries())
      ensures clst <= 1 ==> chain == old(chain) && fs.Logical() == old(fs.Logical())
      ensures clst > 1 ==>
        && Stretched(fs.g, old(fs.Logical()), fs.Logical(), old(chain), chain, Reach(), fptr, clst)
        && (if old(chain) == [] then chain[0] else old(chain)[0]) == sclust
        && Spent(old(fs.Entries()), fs.Entries(), old(chain), chain, ClusterOf(fs.g, fptr) + 1)
      ensures old(fs.FreeExact()) ==> fs.FreeExact()
    {
      ghost var d := fs.Logical();
      AtEnters(fs.g, chain, fptr, clust, dsect);
      clst := sclust;
      if fptr != 0 {
        clst := Stretch(clust);
      } else if clst == 0 {
        clst := Stretch(0);
        sclust := clst;
      } else {
        StretchedAlready(fs.g, d, chain, Reach(), fptr, clst);
      }
    }

    /** On a sector boundary, find the cluster of the next byte to write. */
    method FollowForWrite() returns (place: Place)
      requires Writing() && Rem(fptr, fs.g.ss) == 0
      modifies this`sclust, this`clust, this`chain, fs, fs.win
      ensures fs.Valid()
      ensures place != AtHand ==> Nowhere(place)
      ensures place == AtHand ==>
        Followed(fs.g, old(fs.Logical()), fs.Logical(), old(chain), chain, sclust, Reach(), fptr, clust)
      ensures place == AtHand ==> Spent(old(fs.Entries()), fs.Entries(), old(chain), chain, ClusterOf(fs.g, fptr) + 1)
      ensures old(fs.FreeExact()) ==> fs.FreeExact()
    {
      var csect := Rem(Quot(fptr, fs.g.ss), fs.g.csize);
      if csect == 0 {
        place := EnterCluster();
      } else {
        place := AtHand;
        AtEnters(fs.g, chain, fptr, clust, dsect);
        StretchedAlready(fs.g, fs.Logical(), chain, Reach(), fptr, clust);
        FollowedBy(fs.g, fs.Logical(), fs.Logical(), chain, chain, sclust, Reach(), fptr, clust);
      }
    }

    /** Whole sectors straight to the disk. */
    method PutRun(chunk: seq<byte>, sect: nat, cc: nat)
      requires fs.Valid() && SeatedOk(fs.g, fs.Logical(), chain, sclust, Reach(), fptr, clust)
      requires Rem(fptr, fs.g.ss) == 0 && sect == FileSector(fs.g, chain, Quot(fptr, fs.g.ss))
      requires 1 <= cc && Rem(Quot(fptr, fs.g.ss), fs.g.csize) + cc <= fs.g.csize
      requires |chunk| == Product(cc, fs.g.ss) && fptr + |chunk| < U32
      modifies this`fptr, fs`disk, fs`wflag, fs.win
      ensures Writing() && fptr == old(fptr) + |chunk|
      ensures fs.Entries() == old(fs.Entries())
      ensures Wrote(fs.g, old(fs.Logical()), fs.Logical(), chain, chain, old(Reach()), old(fptr), chunk)
    {
      ghost var g, d, size, p := fs.g, fs.Logical(), Reach(), fptr;
      ChainClusters(g, fs.Entries(), chain);
      ClusterInData(g, clust);
      fs.WriteDirect(chunk, sect, cc);
      fptr := fptr + |chunk|;
      ghost var d' := fs.Logical();
      RunWrites(g, d, d', chain, sclust, size, p, clust, dsect, cc, chunk);
    }

    /** Part of a sector through the window. */
    method PutPart(bs: seq<byte>, grow: bool)
      requires fs.Valid() && SeatedOk(fs.g, fs.Logical(), chain, sclust, Reach(), fptr, clust)
      requires dsect == FileSector(fs.g, chain, Quot(fptr, fs.g.ss))
      requires 1 <= |bs| && Rem(fptr, fs.g.ss) + |bs| <= fs.g.ss && fptr + |bs| < U32
      requires grow ==> Rem(fptr, fs.g.ss) == 0 && fptr >= fsize
      modifies this`fptr, fs`disk, fs`winsect, fs`wflag, fs.win
      ensures Writing() && fptr == old(fptr) + |bs|
      ensures fs.Entries() == old(fs.Entries())
      ensures Wrote(fs.g, old(fs.Logical()), fs.Logical(), chain, chain, old(Reach()), old(fptr), bs)
    {
      ghost var g, d, size, p := fs.g, fs.Logical(), Reach(), fptr;
      ChainClusters(g, fs.Entries(), chain);
      FileSectorFacts(g, chain, Quot(fptr, g.ss));
      fs.StoreAt(dsect, grow, Rem(fptr, fs.g.ss), bs);
      fptr := fptr + |bs|;
      ghost var d' := fs.Logical();
      PartWrites(g, d, d', chain, sclust, size, p, clust, dsect, grow, bs);
    }

    /** What a round of f_write leaves when it goes on: more data in the file than on logical disk `d`. */
    ghost predicate Advanced(d: seq<Sector>, ch: seq<nat>, size: nat, p: nat, data: seq<byte>, wcnt: nat)
      reads this, fs`disk, fs`winsect, fs`wflag, fs.win
    {
      && Writing() && 1 <= wcnt <= |data| && fptr == p + wcnt
      && Wrote(fs.g, d, fs.Logical(), ch, chain, size, p, data[..wcnt])
      && Spent(Table(fs.g, d), fs.Entries(), ch, chain, Needed(fs.g, fptr))
    }

    /** The round of f_write that starts on a sector boundary; 0 bytes when there is no cluster to write to. */
    method WriteAligned(data: seq<byte>) returns (wcnt: nat, place: Place)
      requires Writing() && Rem(fptr, fs.g.ss) == 0 && data != [] && fptr + |data| < U32
      modifies this`fptr, this`sclust, this`clust, this`dsect, this`chain, fs, fs.win
      ensures place == AtHand ==> Advanced(old(fs.Logical()), old(chain), old(Reach()), old(fptr), data, wcnt)
      ensures place != AtHand ==> wcnt == 0 && fptr == old(fptr) && Nowhere(place)
      ensures fs.Valid() && (old(fs.FreeExact()) ==> fs.FreeExact())
    {
      ghost var d, ch := fs.Logical(), chain;
      wcnt := 0;
      place := FollowForWrite();
      if place == AtHand {
        wcnt := PutFollowed(data, d, ch);
      }
    }

    /**
     * The cluster was followed or taken since logical disk `d` and chain `ch`: the window steps aside, the data go in.
     */
    method PutFollowed(data: seq<byte>, ghost d: seq<Sector>, ghost ch: seq<nat>) returns (wcnt: nat)
      requires fs.Valid() && Followed(fs.g, d, fs.Logical(), ch, chain, sclust, Reach(), fptr, clust)
      requires Spent(Table(fs.g, d), fs.Entries(), ch, chain, ClusterOf(fs.g, fptr) + 1)
      requires Rem(fptr, fs.g.ss) == 0 && data != [] && fptr + |data| < U32
      modifies this`fptr, this`dsect, fs`disk, fs`winsect, fs`wflag, fs.win
      ensures Writing() && 1 <= wcnt <= |data| && fptr == old(fptr) + wcnt
      ensures Wrote(fs.g, d, fs.Logical(), ch, chain, old(Reach()), old(fptr), data[..wcnt])
      ensures Spent(Table(fs.g, d), fs.Entries(), ch, chain, Needed(fs.g, fptr))
      ensures fs.Entries() == old(fs.Entries())
    {
      ghost var g, size, p, d1 := fs.g, Reach(), fptr, fs.Logical();
      if fs.winsect == dsect {
        fs.MoveWindow(0);
      }
      wcnt := PutAligned(data);
      ghost var d2 := fs.Logical();
      RoundOutcome(g, d, d1, d2, ch, chain, sclust, size, p, clust, data[..wcnt]);
    }

    /** Data at a sector boundary whose cluster is known: whole sectors, or the start of one. */
    method PutAligned(data: seq<byte>) returns (wcnt: nat)
      requires fs.Valid() && SeatedOk(fs.g, fs.Logical(), chain, sclust, Reach(), fptr, clust)
      requires Rem(fptr, fs.g.ss) == 0 && data != [] && fptr + |data| < U32
      modifies this`fptr, this`dsect, fs`disk, fs`winsect, fs`wflag, fs.win
      ensures Writing() && 1 <= wcnt <= |data| && fptr == old(fptr) + wcnt
      ensures fs.Entries() == old(fs.Entries())
      ensures Wrote(fs.g, old(fs.Logical()), fs.Logical(), chain, chain, old(Reach()), old(fptr), data[..wcnt])
    {
      var ss := fs.g.ss;
      ClusterInData(fs.g, clust);
      var csect := Rem(Quot(fptr, ss), fs.g.csize);
      var sect := Clust2Sect(fs.g, clust);
      if sect == 0 {
        assert false;  // ABORT(FR_INT_ERR)
      }
      sect := sect + csect;
      var cc := Quot(|data|, ss);
      if cc > 0 {
        QuotProduct(|data|, ss);
        if csect + cc > fs.g.csize {
          cc := fs.g.csize - csect;
        }
        ProductMono(cc, Quot(|data|, ss), ss);
        ProductGap(0, cc, ss);
        wcnt := Product(cc, ss);
        PutRun(data[..wcnt], sect, cc);
      } else {
        var grow := fptr >= fsize;
        dsect := sect;
        wcnt := ss;
        if wcnt > |data| {
          wcnt := |data|;
        }
        PutPart(data[..wcnt], grow);
      }
    }

    /** One round of the loop of f_write; 0 bytes when there is no cluster to write to. */
    method WriteRound(data: seq<byte>) returns (wcnt: nat, place: Place)
      requires Writing() && data != [] && fptr + |data| < U32
      modifies this`fptr, this`sclust, this`clust, this`dsect, this`chain, fs, fs.win
      ensures place == AtHand ==> Advanced(old(fs.Logical()), old(chain), old(Reach()), old(fptr), data, wcnt)
      ensures place != AtHand ==> wcnt == 0 && fptr == old(fptr) && Nowhere(place)
      ensures fs.Valid() && (old(fs.FreeExact()) ==> fs.FreeExact())
    {
      var ss := fs.g.ss;
      if Rem(fptr, ss) == 0 {
        wcnt, place := WriteAligned(data);
      } else {
        AtEnters(fs.g, chain, fptr, clust, dsect);
        place, wcnt := AtHand, ss - Rem(fptr, ss);
        if wcnt > |data| {
          wcnt := |data|;
        }
        PutPart(data[..wcnt], false);
        CoversFront(fs.g, chain, Reach(), fptr);
        SpentInside(fs.g, fs.Entries(), chain, fptr);
      }
    }

    /** No cluster is free and the file is written to the end of its last one. */
    ghost predicate Stuck()
      reads this`fptr, this`chain, fs`disk, fs`winsect, fs`wflag, fs.win
    {
      fs.Valid() && FreeCount(fs.Entries()) == 0 && fptr == Product(|chain|, Product(fs.g.csize, fs.g.ss))
    }

    /** `bw` bytes of the data written so far, counted from logical disk `d`, chain `ch` and position `p`. */
    ghost predicate Progress(d: seq<Sector>, ch: seq<nat>, size: nat, p: nat, data: seq<byte>, bw: nat)
      reads this, fs`disk, fs`winsect, fs`wflag, fs.win
    {
      && fs.Valid() && fptr == p + bw && Reach() == Max(size, p + bw)
      && Took(fs.g, d, fs.Logical(), ch, chain, size, p, data, bw)
    }

    /** Where f_write stands: on its way, at the end of a full volume, or before a bad entry. */
    ghost predicate Stands(place: Place)
      reads this, fs`disk, fs`winsect, fs`wflag, fs.win
    {
      && fs.Valid()
      && (place != Broken ==> Writing())
      && (place == NoRoom ==> Stuck())
      && (place == Broken ==> !NoBad(fs.Entries()))
    }

    /** The loop of f_write, after bw bytes. */
    ghost predicate Underway(d: seq<Sector>, ch: seq<nat>, size: nat, p: nat, data: seq<byte>, bw: nat, place: Place,
                             exact: bool)
      reads this, fs, fs.win
    {
      Progress(d, ch, size, p, data, bw) && Stands(place) && (exact ==> fs.FreeExact())
    }

    /** What a round put into the file comes on top of what the rounds before had. */
    lemma {:induction false} Onward(d: seq<Sector>, d1: seq<Sector>, ch: seq<nat>, ch1: seq<nat>, size: nat, p: nat,
                                    data: seq<byte>, bw: nat, reach: nat, q: nat, wcnt: nat)
      requires fs.Valid() && bw < |data| && q == p + bw && reach == Max(size, q) == Max(fsize, q)
      requires Took(fs.g, d, d1, ch, ch1, size, p, data, bw)
      requires Advanced(d1, ch1, reach, q, data[bw..], wcnt)
      ensures Progress(d, ch, size, p, data, bw + wcnt)
    {
      ghost var d2 := fs.Logical();
      TookMore(fs.g, d, d1, d2, ch, ch1, chain, size, p, data, bw, wcnt);
    }

    /** One round of the loop of f_write on top of the rounds before. */
    method WriteNext(data: seq<byte>, bw: nat, ghost d: seq<Sector>, ghost ch: seq<nat>, ghost size: nat, ghost p: nat,
                     ghost exact: bool)
      returns (done: nat, place: Place)
      requires Underway(d, ch, size, p, data, bw, AtHand, exact) && bw < |data| && p + |data| < U32
      modifies this`fptr, this`sclust, this`clust, this`dsect, this`chain, fs, fs.win
      ensures Underway(d, ch, size, p, data, done, place, exact)
      ensures if place == AtHand then bw < done <= |data| else done == bw
    {
      ghost var d1, ch1, reach, q := fs.Logical(), chain, Reach(), fptr;
      var wcnt;
      wcnt, place := WriteRound(data[bw..]);
      done := bw + wcnt;
      if place == AtHand {
        Onward(d, d1, ch, ch1, size, p, data, bw, reach, q, wcnt);
      } else {
        assert Progress(d, ch, size, p, data, bw);
      }
    }

    /** The loop of f_write. */
    method WriteLoop(data: seq<byte>) returns (bw: nat, place: Place)
      requires Writing() && fptr + |data| < U32
      modifies this`fptr, this`sclust, this`clust, this`dsect, this`chain, fs, fs.win
      ensures Progress(old(fs.Logical()), old(chain), old(Reach()), old(fptr), data, bw) && Stands(place)
      ensures place == AtHand <==> bw == |data|
      ensures old(fs.FreeExact()) ==> fs.FreeExact()
    {
      ghost var d, ch, size, p, exact := fs.Logical(), chain, Reach(), fptr, fs.FreeExact();
      ChainClusters(fs.g, fs.Entries(), chain);
      TookNothing(fs.g, d, chain, size, p, data);
      bw, place := 0, AtHand;
      while bw < |data| && place == AtHand
        invariant bw <= |data| && Underway(d, ch, size, p, data, bw, place, exact)
        invariant place != AtHand ==> bw < |data|
        decreases |data| - bw, place == AtHand
      {
        bw, place := WriteNext(data, bw, d, ch, size, p, exact);
      }
    }

    /** As much of the data as there is room for, or as comes before a bad entry is met. */
    method WriteAll(data: seq<byte>) returns (bw: nat, place: Place)
      requires Valid() && fsize + |data| < U32
      modifies this`fptr, this`sclust, this`clust, this`dsect, this`chain, fs, fs.win
      ensures fs.Valid() && fptr == old(fptr) + bw && bw <= |data| && Reach() == Max(old(fsize), fptr)
      ensures Took(fs.g, old(fs.Logical()), fs.Logical(), old(chain), chain, old(fsize), old(fptr), data, bw)
      ensures place != Broken ==>
        Writing() && bw == Writable(fs.g, old(fs.Entries()), old(chain), old(fsize), old(fptr), |data|)
      ensures place == Broken ==> bw < |data| && !NoBad(old(fs.Entries()))
      ensures bw <= Writable(fs.g, old(fs.Entries()), old(chain), old(fsize), old(fptr), |data|)
      ensures old(fs.FreeExact()) ==> fs.FreeExact()
    {
      ghost var d, ch, size, p := fs.Logical(), chain, fsize, fptr;
      bw, place := WriteLoop(data);
      ghost var d' := fs.Logical();
      TookWritable(fs.g, d, d', ch, chain, size, p, data, bw);
    }

    /** f_write on a file object that may be written: on a bad entry the file is aborted as it stands. */
    method WriteAccepted(data: seq<byte>) returns (bw: nat)
      requires Valid() && !aborted && |data| < U32
      modifies this`fptr, this`fsize, this`sclust, this`clust, this`dsect, this`chain, this`written, this`aborted, fs,
        fs.win
      ensures Usable() && fptr == old(fptr) + bw && bw <= |data|
      ensures Took(fs.g, old(fs.Logical()), fs.Logical(), old(chain), chain, old(fsize), old(fptr), data, bw)
      ensures !aborted ==>
        && fsize == Max(old(fsize), fptr)
        && bw == Writable(fs.g, old(fs.Entries()), old(chain), old(fsize), old(fptr), |data|)
      ensures aborted ==> bw < |data| && fsize == old(fsize) && !NoBad(old(fs.Entries()))
      ensures bw <= Writable(fs.g, old(fs.Entries()), old(chain), old(fsize), old(fptr), |data|)
      ensures old(fs.FreeExact()) ==> fs.FreeExact()
    {
      SizeWraps(fsize, |data|);
      var place := AtHand;
      if (fsize + |data|) % U32 < fsize {
        ChainClusters(fs.g, fs.Entries(), chain);
        TookNothing(fs.g, fs.Logical(), chain, fsize, fptr, data);
        bw := 0;
      } else {
        bw, place := WriteAll(data);
      }
      Settle(place);
    }

    /** The end of f_write: the size follows the position, or a bad entry aborts the file. */
    method Settle(place: Place)
      requires !aborted && fs.Valid() && (place != Broken ==> Writing())
      modifies this`aborted, this`written, this`fsize
      ensures fs.Valid() && fs.Logical() == old(fs.Logical()) && fs.FreeExact() == old(fs.FreeExact())
      ensures aborted == (place == Broken) && Usable()
      ensures fsize == if aborted then old(fsize) else Max(old(fsize), fptr)
    {
      if place == Broken {
        aborted := true;
      } else {
        if fptr > fsize {
          fsize := fptr;
        }
        written := true;
      }
    }

    /** f_write. */
    method Write(data: seq<byte>) returns (res: FResult, bw: nat)
      requires Usable() && |data| < U32
      modifies this`fptr, this`fsize, this`sclust, this`clust, this`dsect, this`chain, this`written, this`aborted, fs,
        fs.win
      ensures Usable() && fptr == old(fptr) + bw && bw <= |data|
      ensures res == if aborted then IntErr else if !writable then Denied else Ok
      ensures old(aborted) ==> aborted && bw == 0 && fs.Logical() == old(fs.Logical())
      ensures !old(aborted) ==>
        Took(fs.g, old(fs.Logical()), fs.Logical(), old(chain), chain, old(fsize), old(fptr), data, bw)
      ensures !aborted ==>
        && Bytes() == Splice(old(Bytes()), old(fptr), data[..bw])
        && bw == if res != Ok then 0 else Writable(fs.g, old(fs.Entries()), old(chain), old(fsize), old(fptr), |data|)
      ensures aborted && !old(aborted) ==> writable && bw < |data| && fsize == old(fsize) && !NoBad(old(fs.Entries()))
      ensures !old(aborted) ==> bw <= Writable(fs.g, old(fs.Entries()), old(chain), old(fsize), old(fptr), |data|)
      ensures old(fs.FreeExact()) ==> fs.FreeExact()
    {
      ghost var d, ch, size, p := fs.Logical(), chain, fsize, fptr;
      bw := 0;
      if aborted {
        res := IntErr;
      } else if !writable {
        res := Denied;
        ChainClusters(fs.g, fs.Entries(), chain);
        TookNothing(fs.g, fs.Logical(), chain, fsize, fptr, data);
        WroteSplices(fs.g, d, fs.Logical(), ch, chain, size, p, data[..0]);
      } else {
        bw := WriteAccepted(data);
        res := if aborted then IntErr else Ok;
        WroteSplices(fs.g, d, fs.Logical(), ch, chain, size, p, data[..bw]);
      }
    }
  }
}
