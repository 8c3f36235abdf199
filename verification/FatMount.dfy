/** The geometry checks of chk_mounted, on 32-bit arithmetic. */
module FatMount {
  import opened Arithmetic
  import opened Bytes
  import opened FatGeometry

  const DIR_ENTRY := 32
  const MIN_FAT16 := 4086
  const MIN_FAT32 := 65526

  /** The boot sector fields chk_mounted reads. */
  datatype Bpb = Bpb(
    bytsPerSec: nat,
    secPerClus: nat,
    rsvdSecCnt: nat,
    numFats: nat,
    rootEntCnt: nat,
    totSec16: nat,
    fatSz16: nat,
    totSec32: nat,
    fatSz32: nat)
  {
    predicate Fields() {
      && bytsPerSec < 0x1_0000 && secPerClus < 0x100 && rsvdSecCnt < 0x1_0000 && numFats < 0x100
      && rootEntCnt < 0x1_0000 && totSec16 < 0x1_0000 && fatSz16 < 0x1_0000 && totSec32 < U32 && fatSz32 < U32
    }

    /** Sectors of one FAT, of the volume. */
    function FatSize(): (n: nat) { if fatSz16 == 0 then fatSz32 else fatSz16 }
    function Sectors(): (n: nat) { if totSec16 == 0 then totSec32 else totSec16 }

    /** Sectors of all FAT copies, of a volume with one or two. */
    function FatArea(): (n: nat) { if numFats == 2 then 2 * FatSize() else FatSize() }

    function RootSectors(ss: nat): (n: nat)
      requires ss >= DIR_ENTRY
    {
      Quot(rootEntCnt, ss / DIR_ENTRY)
    }

    /** Sectors in front of the data area, without wrap-around. */
    function SystemSectors(ss: nat): (n: nat)
      requires ss >= DIR_ENTRY
    {
      rsvdSecCnt + FatArea() + RootSectors(ss)
    }

    /** Clusters behind the system area. */
    function Clusters(ss: nat): (n: nat)
      requires ss >= DIR_ENTRY
    {
      if secPerClus > 0 && SystemSectors(ss) <= Sectors() then Quot(Sectors() - SystemSectors(ss), secPerClus) else 0
    }
  }

  function Word(x: nat): (w: nat)
    ensures w < U32
  {
    x % U32
  }

  predicate PowerOfTwo(b: nat) { b in {1, 2, 4, 8, 16, 32, 64, 128} }

  function Kind(nclst: nat): (k: FatKind) {
    if nclst >= MIN_FAT32 then Fat32 else if nclst >= MIN_FAT16 then Fat16 else Fat12
  }

  datatype Mounted = NoFilesystem | Volume(g: Geometry)

  predicate SectorSize(ss: nat) { ss in {512, 1024, 2048, 4096} }

  /** chk_mounted from the boot sector of a partition at `bsect` on a device of `total` sectors of `ss` bytes. */
  function Mount(b: Bpb, ss: nat, bsect: nat, total: nat): (m: Mounted)
    requires SectorSize(ss)
  {
    if b.bytsPerSec != ss then NoFilesystem
    else if b.numFats != 1 && b.numFats != 2 then NoFilesystem
    else if !PowerOfTwo(b.secPerClus) then NoFilesystem
    else if Rem(b.rootEntCnt, ss / DIR_ENTRY) != 0 then NoFilesystem
    else if b.rsvdSecCnt == 0 then NoFilesystem
    else
      var sysect := Word(b.rsvdSecCnt + Word(b.FatArea()) + b.RootSectors(ss));
      if b.Sectors() < sysect then NoFilesystem
      else Classify(b, ss, bsect, total, sysect, Quot(b.Sectors() - sysect, b.secPerClus))
  }

  /** The sub-type from the number of clusters, and the FAT size it needs. */
  function Classify(b: Bpb, ss: nat, bsect: nat, total: nat, sysect: nat, nclst: nat): (m: Mounted)
    requires ss > 0
  {
    if nclst == 0 then NoFilesystem
    else
      var kind := Kind(nclst);
      var szbfat := Word(TableBytes(kind, nclst + 2));
      if (kind == Fat32) != (b.rootEntCnt == 0) then NoFilesystem
      else if b.FatSize() < Quot(Word(szbfat + (ss - 1)), ss) then NoFilesystem
      else Volume(Geometry(kind, ss, b.secPerClus, b.numFats, nclst + 2, b.FatSize(),
                           Word(bsect + b.rsvdSecCnt), Word(bsect + sysect), total))
  }

  lemma {:induction false} RoomForTable(need: nat, size: nat, ss: nat)
    requires ss > 0 && size >= Quot(need + (ss - 1), ss)
    ensures need <= Product(size, ss)
  {
    QuotProduct(need + (ss - 1), ss);
    ProductMono(Quot(need + (ss - 1), ss), size, ss);
  }

  /**
   * A volume that chk_mounted accepts, on a partition that fits the device, has
   * a sound geometry exactly when its system area does not wrap 32 bits and its
   * clusters, numbered from 2, can be told from the "last link" mark of FAT32.
   * The limits of the other sub-types follow from the sub-type boundary.
   */
  lemma {:induction false} MountedIsValid(b: Bpb, ss: nat, bsect: nat, total: nat)
    requires SectorSize(ss) && b.Fields() && Mount(b, ss, bsect, total).Volume?
    requires bsect + b.Sectors() <= total <= U32 && bsect + b.rsvdSecCnt < total
    ensures var g := Mount(b, ss, bsect, total).g;
      && (g.Valid() <==> b.SystemSectors(ss) < U32 && b.Clusters(ss) + 2 <= MaxEntries(Fat32))
      && (g.kind != Fat32 ==> g.nFatent <= MaxEntries(g.kind))
  {
    if b.SystemSectors(ss) >= U32 {
      WrappedOverlaps(b, ss, bsect, total);
    } else {
      MountClassifies(b, ss, bsect, total);
      if b.Clusters(ss) + 2 <= MaxEntries(Fat32) {
        SoundMount(b, ss, bsect, total);
      }
    }
  }

  /**
   * How a volume lies on the device: the FATs behind the reserved sectors, the entries of the root directory in exactly
   * the sectors between them and the data area, and whole clusters behind these; the sub-type goes by their number.
   */
  ghost predicate LaidOut(b: Bpb, ss: nat, bsect: nat, g: Geometry) {
    && b.Fields() && SectorSize(ss) && g.ss == ss == b.bytsPerSec && g.csize == b.secPerClus && g.nFats == b.numFats
    && g.fsize == (if b.fatSz16 == 0 then b.fatSz32 else b.fatSz16)
    && g.fatbase == bsect + b.rsvdSecCnt && g.FatEnd() == g.fatbase + b.numFats * g.fsize
    && g.FatEnd() <= g.database <= bsect + b.Sectors() && g.nFatent >= 3
    && Product(g.database - g.FatEnd(), ss) == 32 * b.rootEntCnt
    && Product(g.nFatent - 2, g.csize) <= bsect + b.Sectors() - g.database < Product(g.nFatent - 1, g.csize)
    && (g.kind == Fat12 <==> g.nFatent - 2 < 4086) && (g.kind == Fat32 <==> g.nFatent - 2 >= 65526)
  }

  /** An accepted volume lies so when nothing wraps. */
  lemma {:induction false} MountedLayout(b: Bpb, ss: nat, bsect: nat, total: nat)
    requires SectorSize(ss) && b.Fields() && Mount(b, ss, bsect, total).Volume? && b.SystemSectors(ss) < U32
    requires bsect + b.Sectors() <= total <= U32 && bsect + b.rsvdSecCnt < total
    ensures LaidOut(b, ss, bsect, Mount(b, ss, bsect, total).g) && Mount(b, ss, bsect, total).g.total == total
  {
    var sys := b.SystemSectors(ss);
    MountClassifies(b, ss, bsect, total);
    MountFits(b, ss, bsect, total);
    var n := Quot(b.Sectors() - sys, b.secPerClus);
    ClassifyLayout(b, ss, bsect, total, sys, n);
    LayoutFacts(b, ss, bsect, sys, n, Classify(b, ss, bsect, total, sys, n).g);
  }

  /** What the first checks leave. */
  lemma {:induction false} MountFits(b: Bpb, ss: nat, bsect: nat, total: nat)
    requires SectorSize(ss) && Mount(b, ss, bsect, total).Volume?
    ensures b.bytsPerSec == ss && Rem(b.rootEntCnt, ss / DIR_ENTRY) == 0
    ensures 1 <= b.numFats <= 2 && b.rsvdSecCnt >= 1 && PowerOfTwo(b.secPerClus)
    ensures var sys := Word(b.rsvdSecCnt + Word(b.FatArea()) + b.RootSectors(ss));
            && sys <= b.Sectors()
            && Mount(b, ss, bsect, total)
            == Classify(b, ss, bsect, total, sys, Quot(b.Sectors() - sys, b.secPerClus))
  {
  }

  lemma {:induction false} SmallPower(b: nat)
    requires PowerOfTwo(b)
    ensures 1 <= b <= 128
  {
  }

  lemma {:induction false} ClassifyLayout(b: Bpb, ss: nat, bsect: nat, total: nat, sys: nat, nclst: nat)
    requires ss > 0 && b.rsvdSecCnt <= sys && Classify(b, ss, bsect, total, sys, nclst).Volume?
    requires b.secPerClus > 0 && sys <= b.Sectors() && nclst == Quot(b.Sectors() - sys, b.secPerClus)
    requires bsect + b.Sectors() <= U32
    ensures nclst > 0 && Classify(b, ss, bsect, total, sys, nclst).g
         == Geometry(Kind(nclst), ss, b.secPerClus, b.numFats, nclst + 2, b.FatSize(), bsect + b.rsvdSecCnt,
           bsect + sys, total)
  {
    QuotSmaller(b.Sectors() - sys, b.secPerClus);
  }

  lemma {:induction false} LayoutFacts(b: Bpb, ss: nat, bsect: nat, sys: nat, n: nat, g: Geometry)
    requires b.Fields() && SectorSize(ss) && b.bytsPerSec == ss && Rem(b.rootEntCnt, ss / DIR_ENTRY) == 0
    requires 1 <= b.numFats <= 2 && b.secPerClus > 0 && sys == b.SystemSectors(ss) <= b.Sectors()
    requires n == Quot(b.Sectors() - sys, b.secPerClus) && n > 0
    requires g == Geometry(Kind(n), ss, b.secPerClus, b.numFats, n + 2, b.FatSize(), bsect + b.rsvdSecCnt,
      bsect + sys, g.total)
    ensures LaidOut(b, ss, bsect, g)
  {
    RootFills(b, ss);
    WholeClusters(b.Sectors() - sys, b.secPerClus, n);
    assert g.database - g.FatEnd() == b.RootSectors(ss);
  }

  lemma {:induction false} WholeClusters(area: nat, csize: nat, n: nat)
    requires csize > 0 && n == Quot(area, csize)
    ensures Product(n, csize) <= area < Product(n + 1, csize)
  {
    QuotProduct(area, csize);
    ProductSum(n, 1, csize);
    ProductIs(1, csize);
  }

  /** The entries of 32 bytes fill whole sectors. */
  lemma {:induction false} RootFills(b: Bpb, ss: nat)
    requires SectorSize(ss) && Rem(b.rootEntCnt, ss / 32) == 0
    ensures Product(b.RootSectors(ss), ss) == 32 * b.rootEntCnt
  {
    var m := ss / 32;
    QuotProduct(b.rootEntCnt, m);
    ProductIs(b.RootSectors(ss), m);
    ProductIs(b.RootSectors(ss), ss);
    Distributes(32, b.RootSectors(ss), m, 0);
  }

  /** The bits of an entry. */
  function EntryBits(kind: FatKind): (n: nat) {
    match kind
    case Fat12 => 12
    case Fat16 => 16
    case Fat32 => 32
  }

  /** A boot sector that describes a volume of this sub-type with this many clusters. */
  ghost predicate Describes(b: Bpb, ss: nat, kind: FatKind, clusters: nat)
    requires ss >= DIR_ENTRY
  {
    && b.bytsPerSec == ss && (b.numFats == 1 || b.numFats == 2) && b.rsvdSecCnt >= 1
    && IsPower(b.secPerClus)
    && Rem(32 * b.rootEntCnt, ss) == 0 && (b.rootEntCnt == 0 <==> kind == Fat32)
    && clusters > 0 && b.SystemSectors(ss) <= b.Sectors()
    && EntryBits(kind) * (clusters + 2) <= 8 * (b.FatSize() * ss)
  }

  /** A power of two that fits a byte. */
  ghost predicate IsPower(b: nat) { b < 0x100 && exists k :: b == Power2(k) }

  function Power2(k: nat): (p: nat) { if k == 0 then 1 else 2 * Power2(k - 1) }

  /** When nothing wraps, exactly the boot sectors that describe a volume are accepted. */
  lemma {:induction false} AcceptedExactly(b: Bpb, ss: nat, bsect: nat, total: nat)
    requires SectorSize(ss) && b.Fields() && b.SystemSectors(ss) < U32 && b.Clusters(ss) + 2 <= MaxEntries(Fat32)
    ensures var n := b.Clusters(ss);
            Mount(b, ss, bsect, total).Volume? <==>
              Describes(b, ss, if n < 4086 then Fat12 else if n < 65526 then Fat16 else Fat32, n)
  {
    var n := b.Clusters(ss);
    PassesExactly(b, ss, bsect, total);
    PowersOfTwo(b.secPerClus);
    RootAligned(b.rootEntCnt, ss);
    TableFits(b, ss, n);
    ClassifiesExactly(b, ss, bsect, total, b.SystemSectors(ss), n);
  }

  /** The checks in front of the sub-type. */
  predicate Passes(b: Bpb, ss: nat)
    requires ss >= DIR_ENTRY
  {
    && b.bytsPerSec == ss && (b.numFats == 1 || b.numFats == 2) && PowerOfTwo(b.secPerClus)
    && Rem(b.rootEntCnt, ss / DIR_ENTRY) == 0 && b.rsvdSecCnt >= 1 && b.SystemSectors(ss) <= b.Sectors()
  }

  lemma {:induction false} PassesExactly(b: Bpb, ss: nat, bsect: nat, total: nat)
    requires SectorSize(ss) && b.SystemSectors(ss) < U32
    ensures Mount(b, ss, bsect, total).Volume? <==>
              Passes(b, ss) && Classify(b, ss, bsect, total, b.SystemSectors(ss), b.Clusters(ss)).Volume?
  {
    NoWrap(b.rsvdSecCnt, b.FatArea(), b.RootSectors(ss));
  }

  lemma {:induction false} PowersOfTwo(b: nat)
    ensures PowerOfTwo(b) <==> IsPower(b)
    ensures PowerOfTwo(b) ==> b > 0
  {
    assert Power2(0) == 1 && Power2(1) == 2 && Power2(2) == 4 && Power2(3) == 8;
    assert Power2(4) == 16 && Power2(5) == 32 && Power2(6) == 64 && Power2(7) == 128 && Power2(8) == 256;
    if IsPower(b) {
      var k :| b == Power2(k);
      if k >= 8 {
        PowerRises(8, k);
      }
    }
  }

  lemma {:induction false} PowerRises(j: nat, k: nat)
    requires j <= k
    ensures Power2(j) <= Power2(k)
    decreases k
  {
    if j < k {
      PowerRises(j, k - 1);
    }
  }

  lemma {:induction false} RootAligned(root: nat, ss: nat)
    requires SectorSize(ss)
    ensures Rem(root, ss / DIR_ENTRY) == 0 <==> Rem(32 * root, ss) == 0
  {
    var m := ss / DIR_ENTRY;
    QuotProduct(root, m);
    ProductIs(Quot(root, m), m);
    ProductIs(Quot(root, m), ss);
    Distributes(32, Quot(root, m), m, Rem(root, m));
    QuotUnique(32 * root, ss, Quot(root, m), 32 * Rem(root, m));
  }

  lemma {:induction false} TableFits(b: Bpb, ss: nat, n: nat)
    requires SectorSize(ss)
    ensures var need := TableBytes(Kind(n), n + 2);
            b.FatSize() >= Quot(need + (ss - 1), ss) <==> EntryBits(Kind(n)) * (n + 2) <= 8 * (b.FatSize() * ss)
  {
    var need := TableBytes(Kind(n), n + 2);
    CeilingFits(need, b.FatSize(), ss);
    ProductIs(b.FatSize(), ss);
    BitsOfTable(Kind(n), n + 2, b.FatSize() * ss);
  }

  lemma {:induction false} BitsOfTable(kind: FatKind, n: nat, bytes: nat)
    ensures TableBytes(kind, n) <= bytes <==> EntryBits(kind) * n <= 8 * bytes
  {
    var h, r := n / 2, n % 2;
    assert n == 2 * h + r;
    assert n * 3 / 2 == 3 * h + r by {
      DivModUnique(n * 3, 2, 3 * h + r, r);
    }
  }

  lemma {:induction false} CeilingFits(need: nat, size: nat, ss: nat)
    requires ss > 0
    ensures size >= Quot(need + (ss - 1), ss) <==> need <= Product(size, ss)
  {
    if size >= Quot(need + (ss - 1), ss) {
      RoomForTable(need, size, ss);
    } else if need <= Product(size, ss) {
      QuotProduct(need + (ss - 1), ss);
      ProductMono(size + 1, Quot(need + (ss - 1), ss), ss);
      ProductSum(size, 1, ss);
      ProductIs(1, ss);
      assert false;
    }
  }

  lemma {:induction false} ClassifiesExactly(b: Bpb, ss: nat, bsect: nat, total: nat, sys: nat, n: nat)
    requires 0 < ss <= 4096 && n + 2 <= MaxEntries(Fat32)
    ensures Classify(b, ss, bsect, total, sys, n).Volume? <==>
              n > 0 && (Kind(n) == Fat32 <==> b.rootEntCnt == 0)
              && b.FatSize() >= Quot(TableBytes(Kind(n), n + 2) + (ss - 1), ss)
  {
    TableSmall(n);
    var need := TableBytes(Kind(n), n + 2);
    assert Word(Word(need) + (ss - 1)) == need + (ss - 1);
  }

  /** A system area that wraps puts the data area in front of the end of the FATs. */
  lemma {:induction false} WrappedOverlaps(b: Bpb, ss: nat, bsect: nat, total: nat)
    requires SectorSize(ss) && b.Fields() && Mount(b, ss, bsect, total).Volume?
    requires bsect + b.Sectors() <= total <= U32 && bsect + b.rsvdSecCnt < total && b.SystemSectors(ss) >= U32
    ensures !Mount(b, ss, bsect, total).g.Valid()
  {
    var g := Mount(b, ss, bsect, total).g;
    var sys := b.SystemSectors(ss);
    WrapOnce(b.rsvdSecCnt + b.RootSectors(ss), b.FatArea());
    QuotSmaller(b.rootEntCnt, ss / DIR_ENTRY);
    assert Word(sys) <= sys - U32;
    assert g.FatEnd() == bsect + b.rsvdSecCnt + b.FatArea();
    assert g.database <= bsect + Word(sys);
  }

  /** A volume that is accepted, and whose system area fits 32 bits, is classified by its cluster count. */
  lemma {:induction false} MountClassifies(b: Bpb, ss: nat, bsect: nat, total: nat)
    requires SectorSize(ss) && b.Fields() && Mount(b, ss, bsect, total).Volume? && b.SystemSectors(ss) < U32
    ensures 512 <= ss <= 4096 && ss % 4 == 0 && 1 <= b.secPerClus <= 128 && b.SystemSectors(ss) <= b.Sectors()
    ensures Mount(b, ss, bsect, total)
         == Classify(b, ss, bsect, total, b.SystemSectors(ss), Quot(b.Sectors() - b.SystemSectors(ss), b.secPerClus))
    ensures 1 <= b.numFats <= 2 && b.rsvdSecCnt >= 1
  {
    MountFits(b, ss, bsect, total);
    SmallPower(b.secPerClus);
    NoWrap(b.rsvdSecCnt, b.FatArea(), b.RootSectors(ss));
  }

  lemma {:induction false} NoWrap(reserved: nat, fats: nat, root: nat)
    requires reserved + fats + root < U32
    ensures Word(reserved + Word(fats) + root) == reserved + fats + root
  {
  }

  lemma {:induction false} SoundMount(b: Bpb, ss: nat, bsect: nat, total: nat)
    requires SectorSize(ss) && b.Fields() && Mount(b, ss, bsect, total).Volume?
    requires bsect + b.Sectors() <= total <= U32 && b.SystemSectors(ss) < U32
    requires Mount(b, ss, bsect, total).g.nFatent <= MaxEntries(Fat32)
    ensures Mount(b, ss, bsect, total).g.Valid()
  {
    var sys := b.SystemSectors(ss);
    MountClassifies(b, ss, bsect, total);
    SoundClassify(b, ss, bsect, total, sys, Quot(b.Sectors() - sys, b.secPerClus));
  }

  /** What a classified volume looks like when nothing wraps. */
  lemma {:induction false} ClassifyFields(b: Bpb, ss: nat, bsect: nat, total: nat, sys: nat, nclst: nat)
    requires 0 < ss <= 4096 && sys <= b.Sectors() && b.rsvdSecCnt <= sys && nclst + 2 <= MaxEntries(Fat32)
    requires Classify(b, ss, bsect, total, sys, nclst).Volume? && bsect + b.Sectors() <= total <= U32
    requires sys < b.Sectors()
    ensures nclst > 0 && b.FatSize() >= Quot(TableBytes(Kind(nclst), nclst + 2) + (ss - 1), ss)
    ensures Classify(b, ss, bsect, total, sys, nclst).g
         == Geometry(Kind(nclst), ss, b.secPerClus, b.numFats, nclst + 2, b.FatSize(), bsect + b.rsvdSecCnt,
           bsect + sys, total)
  {
    TableSmall(nclst);
    var need := TableBytes(Kind(nclst), nclst + 2);
    assert Word(Word(need) + (ss - 1)) == need + (ss - 1);
  }

  lemma {:induction false} SoundClassify(b: Bpb, ss: nat, bsect: nat, total: nat, sys: nat, nclst: nat)
    requires 512 <= ss <= 4096 && ss % 4 == 0 && 1 <= b.secPerClus <= 128 && 1 <= b.numFats <= 2 && b.rsvdSecCnt >= 1
    requires sys == b.SystemSectors(ss) && sys <= b.Sectors() && nclst == Quot(b.Sectors() - sys, b.secPerClus)
    requires Classify(b, ss, bsect, total, sys, nclst).Volume?
    requires bsect + b.Sectors() <= total <= U32 && nclst + 2 <= MaxEntries(Fat32)
    ensures Classify(b, ss, bsect, total, sys, nclst).g.Valid()
  {
    QuotProduct(b.Sectors() - sys, b.secPerClus);
    ProductGap(0, nclst, b.secPerClus);
    ClassifyFields(b, ss, bsect, total, sys, nclst);
    TableSmall(nclst);
    RoomForTable(TableBytes(Kind(nclst), nclst + 2), b.FatSize(), ss);
  }

  lemma {:induction false} TableSmall(nclst: nat)
    requires nclst + 2 <= MaxEntries(Fat32)
    ensures nclst + 2 <= MaxEntries(Kind(nclst)) && TableBytes(Kind(nclst), nclst + 2) < U32 - 4096
  {
  }

  lemma {:induction false} QuotSmaller(a: nat, m: nat)
    requires m > 0
    ensures Quot(a, m) <= a
    decreases a
  {
    if a >= m {
      QuotSmaller(a - m, m);
    }
  }

  lemma {:induction false} WrapOnce(a: nat, x: nat)
    ensures Word(a + Word(x)) == Word(a + x)
  {
  }

  /**
   * The first condition is needed: a boot sector that announces two FATs of
   * 2^31 sectors passes every check, although its data area starts before its
   * FATs end.
   */
  lemma {:induction false} WrapAccepted(b: Bpb, ss: nat, total: nat)
    requires ss == 512 && b.Fields() && b.bytsPerSec == 512 && b.secPerClus == 1 && b.rsvdSecCnt == 32
    requires b.numFats == 2 && b.fatSz16 == 0 && b.fatSz32 == 0x8000_0000
    requires b.rootEntCnt == 16 && b.totSec16 == 43 && 43 <= total <= U32
    ensures Mount(b, ss, 0, total).Volume? && !Mount(b, ss, 0, total).g.Valid()
  {
    QuotUnique(b.rootEntCnt, ss / DIR_ENTRY, 1, 0);
    QuotUnique(10, b.secPerClus, 10, 0);
    ProductIs(10, b.secPerClus);
    var m := Mount(b, ss, 0, total);
    assert m == Classify(b, ss, 0, total, 33, 10);
    QuotUnique(18 + 511, ss, 1, 17);
    WrappedOverlaps(b, ss, 0, total);
  }

  /**
   * So is the second one: a FAT32 boot sector with 0x0FFF_FFFE clusters, nothing of which wraps, passes
   * every check, although the number of its last cluster is an end mark.
   */
  lemma {:induction false} LargeAccepted(b: Bpb, ss: nat, total: nat)
    requires ss == 512 && b.Fields() && b.bytsPerSec == 512 && b.secPerClus == 1 && b.rsvdSecCnt == 32
    requires b.numFats == 1 && b.fatSz16 == 0 && b.fatSz32 == 0x20_0000
    requires b.rootEntCnt == 0 && b.totSec16 == 0 && b.totSec32 == 0x1020_001E <= total <= U32
    ensures Mount(b, ss, 0, total).Volume? && Mount(b, ss, 0, total).g.kind == Fat32
    ensures b.SystemSectors(ss) < U32 && b.Clusters(ss) == 0x0FFF_FFFE && !Mount(b, ss, 0, total).g.Valid()
  {
    var n := 0x0FFF_FFFE;
    QuotUnique(b.rootEntCnt, ss / DIR_ENTRY, 0, 0);
    ProductIs(n, b.secPerClus);
    QuotUnique(n, b.secPerClus, n, 0);
    assert b.SystemSectors(ss) == 0x20_0020;
    assert Mount(b, ss, 0, total) == Classify(b, ss, 0, total, 0x20_0020, n);
    ProductIs(0x20_0000, ss);
    QuotUnique(0x4000_0000 + 511, ss, 0x20_0000, 511);
    assert TableBytes(Fat32, n + 2) == 0x4000_0000;
  }
}
