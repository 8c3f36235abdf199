/**
 * The file system object: one sector window written back lazily over the
 * disk, the FAT read and written through it, and the cluster allocator.
 * Disk transfers succeed.
 */
module FatVolume {
  import opened Arithmetic
  import opened Bytes
  import opened FatGeometry
  import opened FatEntries
  import opened FatTable
  import opened FatChains

  datatype FResult = Ok | IntErr | Denied

  /** The mark put_fat leaves when it stores 0x0FFFFFFF. */
  function Eoc(kind: FatKind): (v: nat) { Cut(kind, 0x0FFF_FFFF) }

  lemma {:induction false} EocEnds(g: Geometry)
    requires g.Valid()
    ensures g.nFatent <= Eoc(g.kind)
  {
  }

  /** The mark has every bit of the entry set: no cluster has this number, and it is not the bad-cluster mark. */
  lemma {:induction false} EocIs(g: Geometry)
    requires g.Valid()
    ensures Eoc(g.kind) == EntryMod(g.kind) - 1 && !IsCluster(g, Eoc(g.kind)) && Eoc(g.kind) != BadMark(g.kind)
  {
  }

  lemma {:induction false} TakenMarked(g: Geometry, t: seq<nat>, clst: nat, last: nat)
    requires g.Valid() && |t| == g.nFatent && Allocate(t, clst, last).Fresh?
    ensures var a := Allocate(t, clst, last);
            var v := AllocTable(t, clst, a, Eoc(g.kind))[a.taken];
            IsCluster(g, a.taken) && v == EntryMod(g.kind) - 1 && EndsChains(g, v)
  {
    AllocateSpec(t, clst, last);
    EocIs(g);
  }

  function Answer(a: Alloc): (r: nat) {
    match a
    case Bad => 1
    case Full => 0
    case Follow(next) => next
    case Fresh(taken) => taken
  }

  /** The disk the caller believes in: the window, when dirty, over the disk and over the FAT copy. */
  ghost function Overlay(g: Geometry, disk: seq<Sector>, winsect: nat, wflag: bool, win: Sector): (d: seq<Sector>)
    requires g.Valid() && |disk| == g.total && (wflag ==> g.Writable(winsect))
    ensures |d| == g.total
  {
    if wflag then Put(g, disk, winsect, win) else disk
  }

  lemma {:induction false} SectorOfEntry(g: Geometry, c: nat, w: nat)
    requires g.Valid() && (w == 2 || w == 4)
    ensures Quot(c, g.ss / w) == Quot(w * c, g.ss)
    ensures Rem(w * c, g.ss) + w <= g.ss
  {
    if w == 2 {
      assert g.ss == 2 * (g.ss / 2);
      Scaled(c, g.ss / 2, 2);
    } else {
      assert g.ss == 4 * (g.ss / 4);
      Scaled(c, g.ss / 4, 4);
    }
  }

  lemma {:induction false} Scaled(c: nat, m: nat, w: nat)
    requires m > 0 && w > 0
    ensures w * m > 0 && Quot(w * c, w * m) == Quot(c, m) && Rem(w * c, w * m) + w <= w * m
  {
    var q, r := Quot(c, m), Rem(c, m);
    QuotRem(c, m);
    Distributes(w, q, m, r);
    RoomFor(w, r, m);
    ScaledBy(w * c, w * m, q, w * r);
  }

  lemma {:induction false} ScaledBy(x: nat, p: nat, q: nat, s: nat)
    requires s < p && x == q * p + s
    ensures Quot(x, p) == q && Rem(x, p) == s
  {
    ProductIs(q, p);
    QuotUnique(x, p, q, s);
  }

  /** Bytes poked side by side in one sector are one write of that sector. */
  lemma {:induction false} PokeAllIsPut(g: Geometry, d: seq<Sector>, i: nat, bs: seq<byte>)
    requires g.Valid() && DiskOk(g, d) && bs != [] && i + |bs| <= g.FatBytes()
    requires Rem(i, g.ss) + |bs| <= g.ss
    ensures Quot(i, g.ss) < g.fsize
    ensures var s := g.fatbase + Quot(i, g.ss);
            PokeAll(g, d, i, bs) == Put(g, d, s, Blit(d[s], Rem(i, g.ss), bs))
    decreases |bs|
  {
    ByteSector(g, i);
    var s, o := g.fatbase + Quot(i, g.ss), Rem(i, g.ss);
    var d1 := Poke(g, d, i, bs[0]);
    PutFacts(g, d, s, d[s][o := bs[0]]);
    if |bs| == 1 {
      assert Blit(d[s], o, bs) == Blit(d[s][o := bs[0]], o + 1, []);
      assert PokeAll(g, d1, i + 1, bs[1..]) == d1;
    } else {
      QuotStep(i, 1, g.ss);
      PokeAllIsPut(g, d1, i + 1, bs[1..]);
      assert Blit(d1[s], o + 1, bs[1..]) == Blit(d[s], o, bs);
      PutTwice(g, d, s, d[s][o := bs[0]], Blit(d[s], o, bs));
    }
  }

  class Volume {
    const g: Geometry
    const win: array<byte>
    var disk: seq<Sector>
    var winsect: nat
    var wflag: bool
    var lastClust: nat
    var freeClust: u32
    var fsiFlag: bool

    ghost predicate Valid()
      reads this`disk, this`winsect, this`wflag, win
    {
      && g.Valid()
      && win.Length == g.ss
      && DiskOk(g, disk)
      && winsect < g.total
      && (wflag ==> g.Writable(winsect))
      && (!wflag && winsect != 0 ==> win[..] == disk[winsect])
    }

    ghost function Logical(): (d: seq<Sector>)
      requires Valid()
      reads this`disk, this`winsect, this`wflag, win
      ensures DiskOk(g, d)
      ensures winsect != 0 ==> d[winsect] == win[..]
    {
      if wflag then PutFacts(g, disk, winsect, win[..]); Overlay(g, disk, winsect, wflag, win[..])
      else disk
    }

    ghost function Entries(): (t: seq<nat>)
      requires Valid()
      reads this`disk, this`winsect, this`wflag, win
    {
      Table(g, Logical())
    }

    /** The FSInfo count, when known, is the number of free clusters. */
    ghost predicate FreeExact()
      requires Valid()
      reads this, win
    {
      Exact(freeClust, Entries())
    }

    /** A freshly mounted volume: window invalid, allocation state as found. */
    constructor (geometry: Geometry, sectors: seq<Sector>, last: nat, free: u32)
      requires geometry.Valid() && DiskOk(geometry, sectors)
      ensures Valid() && g == geometry && Logical() == sectors && !wflag
      ensures lastClust == last && freeClust == free
      ensures fresh(win)
    {
      g := geometry;
      win := new byte[geometry.ss];
      disk := sectors;
      winsect, wflag := 0, false;
      lastClust, freeClust, fsiFlag := last, free, false;
    }

    /** The write-back half of move_window: a FAT sector goes to every copy. */
    method WriteBack()
      requires Valid()
      modifies this`disk, this`wflag
      ensures Valid() && Logical() == old(Logical()) && !wflag && disk == Logical()
      ensures Mirrored(g, old(disk)) ==> Mirrored(g, disk)
    {
      ghost var before := disk;
      if wflag {
        ghost var d := disk;
        var wsect := winsect;
        disk := disk[wsect := win[..]];
        wflag := false;
        if wsect < g.fatbase + g.fsize {
          var nf := g.nFats;
          while nf > 1
            invariant 1 <= nf <= g.nFats && !wflag
            invariant nf == g.nFats ==> wsect == winsect && disk == d[winsect := win[..]]
            invariant nf < g.nFats ==> disk == Put(g, d, winsect, win[..])
          {
            wsect := wsect + g.fsize;
            disk := disk[wsect := win[..]];
            nf := nf - 1;
          }
        }
        PutFacts(g, d, winsect, win[..]);
      }
      if Mirrored(g, before) && disk != before {
        PutMirrors(g, before, winsect, win[..]);
      }
    }

    /** Bring `sector` into the window, writing a dirty window back first; 0 only writes back. */
    method MoveWindow(sector: nat)
      requires Valid() && sector < g.total
      modifies this`disk, this`winsect, this`wflag, win
      ensures Valid() && Logical() == old(Logical())
      ensures sector != 0 ==> winsect == sector && win[..] == Logical()[sector]
      ensures sector == 0 ==> !wflag && disk == Logical() && winsect == old(winsect) && win[..] == old(win[..])
    {
      if winsect != sector {
        WriteBack();
        if sector != 0 {
          BlitSlice(win[..], 0, disk[sector]);
          MemCpy(win, 0, disk[sector]);
          winsect := sector;
        }
      }
    }

    /** Store bytes in the window and mark it dirty. */
    method Store(off: nat, bs: seq<byte>)
      requires Valid() && winsect != 0 && g.Writable(winsect) && off + |bs| <= g.ss
      modifies this`wflag, win
      ensures Valid() && wflag
      ensures win[..] == Blit(old(win[..]), off, bs)
      ensures Logical() == Put(g, old(Logical()), winsect, Blit(old(win[..]), off, bs))
    {
      ghost var w := win[..];
      MemCpy(win, off, bs);
      wflag := true;
      PutTwice(g, disk, winsect, w, win[..]);
      PutFacts(g, disk, winsect, win[..]);
    }

    /** The byte of the table at `i`, through the window. */
    method FatByteAt(i: nat) returns (b: byte)
      requires Valid() && i < g.FatBytes()
      modifies this`disk, this`winsect, this`wflag, win
      ensures Valid() && Logical() == old(Logical())
      ensures b == Flat(g, Logical())[i]
      ensures winsect == g.fatbase + Quot(i, g.ss)
    {
      ByteSector(g, i);
      MoveWindow(g.fatbase + Quot(i, g.ss));
      FlatAt(g, Logical(), i);
      b := win[Rem(i, g.ss)];
    }

    /** get_fat: the entry of a cluster, 1 for anything that is not a cluster. */
    method GetFat(clst: nat) returns (v: nat)
      requires Valid()
      modifies this`disk, this`winsect, this`wflag, win
      ensures Valid() && Logical() == old(Logical())
      ensures v == if IsCluster(g, clst) then Entry(g, Logical(), clst) else 1
    {
      if clst < 2 || clst >= g.nFatent {
        return 1;
      }
      match g.kind {
        case Fat12 =>
          v := GetFat12(clst);
        case Fat16 =>
          EntryWindow(g, Logical(), clst);
          MoveWindow(g.fatbase + Quot(clst, g.ss / 2));
          v := Word16(win[..], Rem(clst * 2, g.ss));
        case Fat32 =>
          EntryWindow(g, Logical(), clst);
          MoveWindow(g.fatbase + Quot(clst, g.ss / 4));
          v := Word32(win[..], Rem(clst * 4, g.ss)) % 0x1000_0000;
      }
    }

    /** The FAT12 case of get_fat: the two bytes may lie in two sectors. */
    method GetFat12(clst: nat) returns (v: nat)
      requires Valid() && IsCluster(g, clst) && g.kind.Fat12?
      modifies this`disk, this`winsect, this`wflag, win
      ensures Valid() && Logical() == old(Logical())
      ensures v == Entry(g, Logical(), clst)
    {
      TableHolds(g.kind, Flat(g, Logical()), g.nFatent, clst);
      var bc := clst;
      bc := bc + bc / 2;
      var lo := FatByteAt(bc);
      bc := bc + 1;
      var hi := FatByteAt(bc);
      var wc := lo + hi as int * 0x100;
      v := if clst % 2 == 1 then wc / 16 else wc % 0x1000;
    }

    /** put_fat: store a value in the entry of a cluster. */
    method PutFat(clst: nat, val: nat) returns (res: FResult)
      requires Valid() && val < U32
      modifies this`disk, this`winsect, this`wflag, win
      ensures Valid()
      ensures res == if IsCluster(g, clst) then Ok else IntErr
      ensures Logical() == if IsCluster(g, clst) then PutEntry(g, old(Logical()), clst, val) else old(Logical())
    {
      if clst < 2 || clst >= g.nFatent {
        return IntErr;
      }
      match g.kind {
        case Fat12 => PutFat12(clst, val);
        case Fat16 => PutFat16(clst, val);
        case Fat32 => PutFat32(clst, val);
      }
      return Ok;
    }

    method PutFat16(clst: nat, val: nat)
      requires Valid() && val < U32 && IsCluster(g, clst) && g.kind.Fat16?
      modifies this`disk, this`winsect, this`wflag, win
      ensures Valid() && Logical() == PutEntry(g, old(Logical()), clst, val)
    {
      PutIsPut(g, Logical(), clst, val);
      MoveWindow(g.fatbase + Quot(clst, g.ss / 2));
      Store(Rem(clst * 2, g.ss), [val % 256, val / 256 % 256]);
    }

    method PutFat32(clst: nat, val: nat)
      requires Valid() && val < U32 && IsCluster(g, clst) && g.kind.Fat32?
      modifies this`disk, this`winsect, this`wflag, win
      ensures Valid() && Logical() == PutEntry(g, old(Logical()), clst, val)
    {
      PutIsPut(g, Logical(), clst, val);
      MoveWindow(g.fatbase + Quot(clst, g.ss / 4));
      var o := Rem(clst * 4, g.ss);
      Store(o, Bytes32(Merge32(Word32(win[..], o), val)));
    }

    /** The FAT12 case of put_fat: the two bytes may lie in two sectors. */
    method PutFat12(clst: nat, val: nat)
      requires Valid() && val < U32 && IsCluster(g, clst) && g.kind.Fat12?
      modifies this`disk, this`winsect, this`wflag, win
      ensures Valid() && Logical() == PutEntry(g, old(Logical()), clst, val)
    {
      ghost var l := Logical();
      TableHolds(g.kind, Flat(g, l), g.nFatent, clst);
      var bc := clst;
      bc := bc + bc / 2;
      var p := FatByteAt(bc);
      var b0 := First12(clst, p, val);
      StoreFat(bc, b0);
      bc := bc + 1;
      p := FatByteAt(bc);
      var b1 := Second12(clst, p, val);
      StoreFat(bc, b1);
      PutTwoBytes(g, l, clst, val, b0, b1);
    }

    method StoreFat(i: nat, b: byte)
      requires Valid() && i < g.FatBytes() && winsect == g.fatbase + Quot(i, g.ss)
      modifies this`wflag, win
      ensures Valid() && Logical() == Poke(g, old(Logical()), i, b)
    {
      ByteSector(g, i);
      ghost var l := Logical();
      assert Blit(win[..], Rem(i, g.ss), [b]) == Blit(win[..][Rem(i, g.ss) := b], Rem(i, g.ss) + 1, []);
      Store(Rem(i, g.ss), [b]);
    }

    /** put_fat on a cluster, seen on the table. */
    method SetEntry(clst: nat, val: nat) returns (res: FResult)
      requires Valid() && val < U32 && IsCluster(g, clst)
      modifies this`disk, this`winsect, this`wflag, win
      ensures Valid() && res == Ok
      ensures Entries() == old(Entries())[clst := Cut(g.kind, val)]
      ensures FatOnly(g, old(Logical()), Logical())
    {
      TablePut(g, Logical(), clst, val);
      res := PutFat(clst, val);
    }

    /** get_fat on a cluster, seen on the table. */
    method EntryOf(clst: nat) returns (v: nat)
      requires Valid() && IsCluster(g, clst)
      modifies this`disk, this`winsect, this`wflag, win
      ensures Valid() && Logical() == old(Logical()) && Entries() == old(Entries())
      ensures v == Entries()[clst] && v < 0x1000_0000
    {
      TableAt(g, Logical(), clst);
      v := GetFat(clst);
    }

    /** One round of the scan of create_chain. */
    method ScanRound(scl: nat, ncl: nat) returns (r: Round)
      requires Valid() && 1 <= scl < g.nFatent && 1 <= ncl < g.nFatent
      modifies this`disk, this`winsect, this`wflag, win
      ensures Valid() && Logical() == old(Logical()) && Entries() == old(Entries())
      ensures r == LookBehind(old(Entries()), scl, ncl)
    {
      var c := ncl + 1;
      if c >= g.nFatent {
        c := 2;
        if c > scl {
          return Stop(0);
        }
      }
      var cs := EntryOf(c);
      if cs == 0 {
        r := Stop(c);
      } else if cs == 0xFFFF_FFFF || cs == 1 {
        r := Stop(cs);
      } else if c == scl {
        r := Stop(0);
      } else {
        r := Next(c);
      }
    }

    /** The circular scan of create_chain: a free cluster, 0 (none) or 1 (bad entry). */
    method FindFree(scl: nat) returns (r: nat)
      requires Valid() && 1 <= scl < g.nFatent
      modifies this`disk, this`winsect, this`wflag, win
      ensures Valid() && Logical() == old(Logical())
      ensures r == Scan(old(Entries()), scl, 1)
    {
      ghost var t := Entries();
      ghost var k := 0;
      var round := Next(scl);
      while round.Next?
        invariant Valid() && Logical() == old(Logical()) && Entries() == t
        invariant round.Next? ==> Undecided(t, scl, k, round.ncl)
        invariant round.Stop? ==> round.answer == Scan(t, scl, 1)
        decreases round.Next?, g.nFatent - k
      {
        RoundDecides(t, scl, k, round.ncl);
        round := ScanRound(scl, round.ncl);
        k := k + 1;
      }
      return round.answer;
    }

    /** create_chain: follow or stretch a chain, or start one (clst == 0). */
    method CreateChain(clst: nat) returns (r: nat)
      requires Valid()
      modifies this, win
      ensures Valid()
      ensures r == Answer(Allocate(old(Entries()), clst, old(lastClust)))
      ensures Entries() == AllocTable(old(Entries()), clst, Allocate(old(Entries()), clst, old(lastClust)), Eoc(g.kind))
      ensures Allocate(old(Entries()), clst, old(lastClust)).Fresh? ==>
        IsCluster(g, r) && Entries()[r] == EntryMod(g.kind) - 1 && EndsChains(g, Entries()[r])
      ensures FatOnly(g, old(Logical()), Logical())
      ensures !Allocate(old(Entries()), clst, old(lastClust)).Fresh? ==>
        Logical() == old(Logical()) && lastClust == old(lastClust) && freeClust == old(freeClust)
      ensures Allocate(old(Entries()), clst, old(lastClust)).Fresh? ==> lastClust == r
      ensures old(FreeExact()) ==> FreeExact()
    {
      var scl;
      ghost var t, l := Entries(), Logical();
      AllocateSpec(t, clst, lastClust);
      if clst == 0 {
        scl := lastClust;
        if scl == 0 || scl >= g.nFatent {
          scl := 1;
        }
      } else {
        if 2 <= clst < g.nFatent {
          TableAt(g, Logical(), clst);
        }
        var cs := GetFat(clst);
        if cs < 2 {
          return 1;
        }
        if cs < g.nFatent {
          return cs;
        }
        scl := clst;
      }
      assert scl == StartPoint(|t|, clst, lastClust);
      var ncl := FindFree(scl);
      if ncl < 2 {
        return ncl;
      }
      TakenMarked(g, t, clst, lastClust);
      Link(ncl, clst);
      return ncl;
    }

    /** The tail of create_chain: mark `ncl` as the last link, hang it behind `clst`, count it. */
    method Link(ncl: nat, clst: nat)
      requires Valid() && IsCluster(g, ncl) && (clst == 0 || IsCluster(g, clst)) && ncl != clst
      requires Entries()[ncl] == 0 && (clst != 0 ==> Entries()[clst] != 0)
      modifies this, win
      ensures Valid() && lastClust == ncl
      ensures Entries() == AllocTable(old(Entries()), clst, Fresh(ncl), Eoc(g.kind))
      ensures FatOnly(g, old(Logical()), Logical())
      ensures old(FreeExact()) ==> FreeExact()
    {
      ghost var t, eoc := Entries(), Eoc(g.kind);
      EocEnds(g);
      if FreeExact() {
        ExactTaken(freeClust, t, ncl, eoc);
        if clst != 0 {
          ExactLinked(Recount(freeClust, -1), t[ncl := eoc], clst, ncl);
        }
      }
      var res := SetEntry(ncl, 0x0FFF_FFFF);
      if clst != 0 {
        res := SetEntry(clst, ncl);
      }
      lastClust := ncl;
      Count(-1);
    }

    method Count(delta: int)
      modifies this`freeClust, this`fsiFlag
      ensures freeClust == Recount(old(freeClust), delta)
      ensures fsiFlag == (old(fsiFlag) || old(freeClust) != UNKNOWN_FREE)
    {
      if freeClust != UNKNOWN_FREE {
        freeClust := (freeClust + delta) % U32;
        fsiFlag := true;
      }
    }

    /** remove_chain, on whatever the table holds. */
    method RemoveChain(first: nat) returns (res: FResult)
      requires Valid()
      modifies this, win
      ensures Valid() && FatOnly(g, old(Logical()), Logical())
      ensures !IsCluster(g, first) ==> res == IntErr && Logical() == old(Logical()) && freeClust == old(freeClust)
      ensures IsCluster(g, first) ==>
        && Entries() == Remove(old(Entries()), first).table
        && res == if Remove(old(Entries()), first).ok then Ok else IntErr
      ensures old(FreeExact()) ==> FreeExact()
    {
      if first < 2 || first >= g.nFatent {
        return IntErr;
      }
      ghost var r := Remove(Entries(), first);
      res := Ok;
      var clst := first;
      while clst < g.nFatent
        invariant Valid() && 2 <= clst && FatOnly(g, old(Logical()), Logical())
        invariant Remove(Entries(), clst).table == r.table && Remove(Entries(), clst).ok == r.ok
        invariant res == Ok
        invariant old(FreeExact()) ==> FreeExact()
        decreases UsedCount(Entries())
      {
        ghost var t := Entries();
        var nxt := EntryOf(clst);
        if nxt == 0 {
          break;
        }
        if nxt == 1 {
          res := IntErr;
          break;
        }
        UsedShrinks(t, clst);
        FreeOne(clst);
        clst := nxt;
      }
    }

    /** One step of remove_chain: empty the entry and count it. */
    method FreeOne(clst: nat)
      requires Valid() && IsCluster(g, clst) && Entries()[clst] != 0
      modifies this, win
      ensures Valid() && FatOnly(g, old(Logical()), Logical())
      ensures Entries() == old(Entries())[clst := 0]
      ensures old(FreeExact()) ==> FreeExact()
    {
      if FreeExact() {
        ExactFreed(freeClust, Entries(), clst);
      }
      var res := SetEntry(clst, 0);
      Count(1);
    }

    /**
     * The multi-sector read of f_read: straight from the disk, then the dirty
     * window laid over the sector it shadows.
     */
    method ReadDirect(sect: nat, cc: nat) returns (run: seq<byte>)
      requires Valid() && g.FatEnd() <= sect && sect + cc <= g.total
      ensures run == RunBytes(g, Logical(), sect, cc)
    {
      run := RunBytes(g, disk, sect, cc);
      WrapDiff(winsect, sect, cc);
      RunOverlay(g, disk, winsect, wflag, win[..], sect, cc);
      if wflag && (winsect - sect) % U32 < cc {
        ProductGap(winsect - sect, cc, g.ss);
        run := Blit(run, Product(winsect - sect, g.ss), win[..]);
      }
    }

    /** Bytes of one sector through the window. */
    method LoadAt(sect: nat, off: nat, n: nat) returns (bs: seq<byte>)
      requires Valid() && 0 < sect < g.total && off + n <= g.ss
      modifies this`disk, this`winsect, this`wflag, win
      ensures Valid() && Logical() == old(Logical()) && bs == Logical()[sect][off..off + n]
    {
      MoveWindow(sect);
      bs := win[off..off + n];
      assert bs == win[..][off..off + n];
    }

    /** The multi-sector write of f_write: straight to the disk; a window in the range is refilled and clean. */
    method WriteDirect(data: seq<byte>, sect: nat, cc: nat)
      requires Valid() && g.FatEnd() <= sect && sect + cc <= g.total && |data| == Product(cc, g.ss)
      modifies this`disk, this`wflag, win
      ensures Valid() && RunStored(g, old(Logical()), Logical(), sect, cc, data)
    {
      disk := WriteRun(g, disk, sect, cc, data, 0);
      WrapDiff(winsect, sect, cc);
      if (winsect - sect) % U32 < cc {
        var p := Piece(data, 0, cc, winsect - sect, g.ss);
        BlitSlice(win[..], 0, p);
        MemCpy(win, 0, p);
        wflag := false;
      }
    }

    /**
     * The partial-sector write of f_write. At the growing edge of the file
     * (`grow`) the window takes the sector over without reading it.
     */
    method StoreAt(sect: nat, grow: bool, off: nat, bs: seq<byte>)
      requires Valid() && g.FatEnd() <= sect < g.total && off + |bs| <= g.ss
      modifies this`disk, this`winsect, this`wflag, win
      ensures Valid() && PartStored(g, old(Logical()), Logical(), sect, grow, off, bs)
    {
      if grow {
        MoveWindow(0);
        winsect := sect;
      } else {
        MoveWindow(sect);
      }
      BlitSlice(win[..], off, bs);
      MemCpy(win, off, bs);
      wflag := true;
      PutFacts(g, disk, sect, win[..]);
    }

    /** Writing the window back makes the disk the logical disk; equal FAT copies stay equal. */
    method Flush()
      requires Valid()
      modifies this`disk, this`winsect, this`wflag, win
      ensures Valid() && disk == Logical() == old(Logical())
      ensures Mirrored(g, old(Logical())) ==> Mirrored(g, disk)
    {
      MoveWindow(0);
    }
  }

  /** `d'` is `d` with the sectors of `data` stored from `sect` on. */
  ghost predicate RunStored(g: Geometry, d: seq<Sector>, d': seq<Sector>, sect: nat, cc: nat, data: seq<byte>)
    requires g.Valid() && DiskOk(g, d) && DiskOk(g, d') && sect + cc <= g.total && |data| == Product(cc, g.ss)
  {
    && (forall s :: sect <= s < sect + cc ==> d'[s] == Piece(data, 0, cc, s - sect, g.ss))
    && (forall s :: 0 <= s < g.total && !(sect <= s < sect + cc) ==> d'[s] == d[s])
  }

  /** Part of a sector stored; at the growing edge the rest of the sector is arbitrary. */
  ghost predicate PartStored(g: Geometry, d: seq<Sector>, d': seq<Sector>, s: nat, grow: bool, o: nat, bs: seq<byte>)
    requires g.Valid() && DiskOk(g, d) && DiskOk(g, d') && s < g.total && o + |bs| <= g.ss
  {
    && (forall r :: 0 <= r < g.total && r != s ==> d'[r] == d[r])
    && d'[s][o..o + |bs|] == bs
    && (!grow ==> d'[s] == Blit(d[s], o, bs))
  }

  /** Byte `k` of a run of `cc` sectors. */
  function RunByte(g: Geometry, d: seq<Sector>, sect: nat, cc: nat, k: nat): (b: byte)
    requires g.Valid() && DiskOk(g, d) && sect + cc <= g.total && k < Product(cc, g.ss)
  {
    QuotBelow(k, cc, g.ss);
    d[sect + Quot(k, g.ss)][Rem(k, g.ss)]
  }

  function RunBytes(g: Geometry, d: seq<Sector>, sect: nat, cc: nat): (r: seq<byte>)
    requires g.Valid() && DiskOk(g, d) && sect + cc <= g.total
    ensures |r| == Product(cc, g.ss)
  {
    seq(Product(cc, g.ss), k requires 0 <= k < Product(cc, g.ss) => RunByte(g, d, sect, cc, k))
  }

  /** Sector `i` of the `cc` sectors of data from `off` on. */
  function Piece(data: seq<byte>, off: nat, cc: nat, i: nat, ss: nat): (p: Sector)
    requires i < cc && off + Product(cc, ss) <= |data|
    ensures |p| == ss
  {
    ProductGap(i, cc, ss);
    data[off + Product(i, ss)..off + Product(i, ss) + ss]
  }

  lemma {:induction false} PieceAt(data: seq<byte>, off: nat, cc: nat, i: nat, ss: nat, r: nat)
    requires i < cc && off + Product(cc, ss) <= |data| && r < ss
    ensures off + Product(i, ss) + r < |data| && Piece(data, off, cc, i, ss)[r] == data[off + Product(i, ss) + r]
  {
    ProductGap(i, cc, ss);
  }

  /** The disk after `cc` sectors from `sect` on were written. */
  function WriteRun(g: Geometry, d: seq<Sector>, sect: nat, cc: nat, data: seq<byte>, off: nat): (r: seq<Sector>)
    requires DiskOk(g, d) && sect + cc <= g.total && off + Product(cc, g.ss) <= |data|
    ensures |r| == g.total
    ensures forall s :: 0 <= s < g.total ==>
      r[s] == if sect <= s < sect + cc then Piece(data, off, cc, s - sect, g.ss) else d[s]
    ensures DiskOk(g, r)
  {
    var r := seq(|d|, s requires 0 <= s < |d| =>
      if sect <= s < sect + cc then Piece(data, off, cc, s - sect, g.ss) else d[s]);
    assert forall s :: 0 <= s < |r| ==>
      r[s] == if sect <= s < sect + cc then Piece(data, off, cc, s - sect, g.ss) else d[s];
    r
  }

  /** The unsigned test of the source for "the window lies in the run". */
  lemma {:induction false} WrapDiff(w: nat, sect: nat, cc: nat)
    requires w < U32 && sect + cc <= U32
    ensures (w - sect) % U32 < cc <==> sect <= w < sect + cc
  {
  }

  /** A run read through a dirty window is the run on the disk with the window laid over its sector. */
  lemma {:induction false} RunOverlay(g: Geometry, disk: seq<Sector>, winsect: nat, wflag: bool, win: Sector,
                                      sect: nat, cc: nat)
    requires g.Valid() && DiskOk(g, disk) && (wflag ==> g.Writable(winsect)) && |win| == g.ss
    requires g.FatEnd() <= sect && sect + cc <= g.total
    ensures DiskOk(g, Overlay(g, disk, winsect, wflag, win))
    ensures !(wflag && sect <= winsect < sect + cc) ==>
      RunBytes(g, Overlay(g, disk, winsect, wflag, win), sect, cc) == RunBytes(g, disk, sect, cc)
    ensures wflag && sect <= winsect < sect + cc ==>
      (ProductGap(winsect - sect, cc, g.ss);
       RunBytes(g, Overlay(g, disk, winsect, wflag, win), sect, cc)
       == Blit(RunBytes(g, disk, sect, cc), Product(winsect - sect, g.ss), win))
  {
    if wflag {
      PutFacts(g, disk, winsect, win);
    }
    var over := Overlay(g, disk, winsect, wflag, win);
    var hit := wflag && sect <= winsect < sect + cc;
    if hit {
      ProductGap(winsect - sect, cc, g.ss);
    }
    forall k | 0 <= k < Product(cc, g.ss)
      ensures !hit ==> RunByte(g, over, sect, cc, k) == RunByte(g, disk, sect, cc, k)
      ensures hit ==>
        RunByte(g, over, sect, cc, k) == Blit(RunBytes(g, disk, sect, cc), Product(winsect - sect, g.ss), win)[k]
    {
      QuotBelow(k, cc, g.ss);
      if hit {
        BlockOf(k, g.ss, winsect - sect);
        BlitAt(RunBytes(g, disk, sect, cc), Product(winsect - sect, g.ss), win, k);
      }
    }
  }

  lemma {:induction false} BlockOf(k: nat, m: nat, i: nat)
    requires m > 0
    ensures Product(i, m) <= k < Product(i, m) + m <==> Quot(k, m) == i
    ensures Quot(k, m) == i ==> Rem(k, m) == k - Product(i, m)
  {
    QuotProduct(k, m);
    if Product(i, m) <= k < Product(i, m) + m {
      QuotUnique(k, m, i, k - Product(i, m));
    }
  }

  /** The two bytes the FAT12 case stores one after the other are the entry. */
  lemma {:induction false} PutTwoBytes(g: Geometry, d: seq<Sector>, c: nat, val: nat, b0: byte, b1: byte)
    requires g.Valid() && DiskOk(g, d) && c < g.nFatent && g.kind.Fat12? && val < U32
    requires c + c / 2 + 2 <= g.FatBytes()
    requires b0 == First12(c, Flat(g, d)[c + c / 2], val)
    requires b1 == Second12(c, Flat(g, Poke(g, d, c + c / 2, b0))[c + c / 2 + 1], val)
    ensures PutEntry(g, d, c, val) == Poke(g, Poke(g, d, c + c / 2, b0), c + c / 2 + 1, b1)
  {
    var o := c + c / 2;
    var d1 := Poke(g, d, o, b0);
    PokeFlat(g, d, o, b0);
    assert NewBytes(g.kind, Flat(g, d), c, val) == [b0, b1];
    assert [b0, b1][1..] == [b1];
    assert PokeAll(g, d1, o + 1, [b1]) == PokeAll(g, Poke(g, d1, o + 1, b1), o + 2, []);
  }

  /** A word that lies inside one sector reads the same from the sector and from the table. */
  lemma {:induction false} WindowWord(g: Geometry, d: seq<Sector>, i: nat, w: nat)
    requires g.Valid() && DiskOk(g, d) && i + w <= g.FatBytes() && (w == 2 || w == 4) && Rem(i, g.ss) + w <= g.ss
    ensures Quot(i, g.ss) < g.fsize
    ensures w == 2 ==> Word16(d[g.fatbase + Quot(i, g.ss)], Rem(i, g.ss)) == Word16(Flat(g, d), i)
    ensures w == 4 ==> Word32(d[g.fatbase + Quot(i, g.ss)], Rem(i, g.ss)) == Word32(Flat(g, d), i)
  {
    SameSector(g, d, i, 0);
    SameSector(g, d, i, 1);
    if w == 4 {
      SameSector(g, d, i, 2);
      SameSector(g, d, i, 3);
    }
  }

  lemma {:induction false} SameSector(g: Geometry, d: seq<Sector>, i: nat, k: nat)
    requires g.Valid() && DiskOk(g, d) && i + k < g.FatBytes() && Rem(i, g.ss) + k < g.ss
    ensures Quot(i, g.ss) < g.fsize
    ensures Flat(g, d)[i + k] == d[g.fatbase + Quot(i, g.ss)][Rem(i, g.ss) + k]
  {
    QuotStep(i, k, g.ss);
    FlatAt(g, d, i + k);
  }

  /** The sector and offset get_fat computes for 16 and 32 bit entries hold the whole entry. */
  lemma {:induction false} EntryWindow(g: Geometry, d: seq<Sector>, c: nat)
    requires g.Valid() && DiskOk(g, d) && c < g.nFatent && !g.kind.Fat12?
    ensures var w := EntryWidth(g.kind); var s := g.fatbase + Quot(c, g.ss / w);
      && g.InFat(s) && Rem(c * w, g.ss) + w <= g.ss
      && (w == 2 ==> Word16(d[s], Rem(c * 2, g.ss)) == Entry(g, d, c))
      && (w == 4 ==> Word32(d[s], Rem(c * 4, g.ss)) == Word32(Flat(g, d), 4 * c))
  {
    var w := EntryWidth(g.kind);
    TableHolds(g.kind, Flat(g, d), g.nFatent, c);
    SectorOfEntry(g, c, w);
    assert w * c == c * w;
    WindowWord(g, d, w * c, w);
  }

  /** put_fat on 16 and 32 bit entries is one write of that sector. */
  lemma {:induction false} PutIsPut(g: Geometry, d: seq<Sector>, c: nat, val: nat)
    requires g.Valid() && DiskOk(g, d) && c < g.nFatent && !g.kind.Fat12? && val < U32
    ensures var w := EntryWidth(g.kind); var s := g.fatbase + Quot(c, g.ss / w); var o := Rem(c * w, g.ss);
      && g.InFat(s) && o + w <= g.ss
      && (w == 2 ==> PutEntry(g, d, c, val) == Put(g, d, s, Blit(d[s], o, [val % 256, val / 256 % 256])))
      && (w == 4 ==> PutEntry(g, d, c, val) == Put(g, d, s, Blit(d[s], o, Bytes32(Merge32(Word32(d[s], o), val)))))
  {
    var w := EntryWidth(g.kind);
    EntryWindow(g, d, c);
    TableHolds(g.kind, Flat(g, d), g.nFatent, c);
    SectorOfEntry(g, c, w);
    assert w * c == c * w;
    PokeAllIsPut(g, d, w * c, NewBytes(g.kind, Flat(g, d), c, val));
  }
}
