/**
 * The mounted volume as chk_mounted leaves it: where the FAT copies and the
 * data clusters lie on the disk, and the sector-level write that reflects a
 * FAT sector to the second copy.
 */
module FatGeometry {
  import opened Arithmetic
  import opened Bytes

  type Sector = seq<byte>

  datatype FatKind = Fat12 | Fat16 | Fat32

  datatype Geometry = Geometry(
    kind: FatKind,
    ss: nat,        // bytes per sector
    csize: nat,     // sectors per cluster
    nFats: nat,     // FAT copies
    nFatent: nat,   // clusters + 2
    fsize: nat,     // sectors per FAT
    fatbase: nat,
    database: nat,
    total: nat)     // sectors on the device
  {
    /** What a volume needs so that no access leaves its area. */
    ghost predicate Valid() {
      && 512 <= ss <= 4096 && ss % 4 == 0
      && 1 <= csize <= 128
      && 1 <= nFats <= 2
      && 1 <= fatbase
      && FatEnd() <= database < total
      && 3 <= nFatent <= MaxEntries(kind)
      && TableBytes(kind, nFatent) <= FatBytes()
      && database + Product(nFatent - 2, csize) <= total <= U32
    }

    /** Bytes of one FAT copy. */
    function FatBytes(): (n: nat) { Product(fsize, ss) }

    /** First sector behind the last FAT copy. */
    function FatEnd(): (n: nat) { fatbase + if nFats == 2 then 2 * fsize else fsize }

    predicate InFat(s: int) { fatbase <= s < fatbase + fsize }

    /** Sectors the window may hold dirty: the first FAT copy or anything behind the last copy. */
    predicate Writable(s: int) {
      InFat(s) || FatEnd() <= s < total
    }
  }

  /** Above this the "last link" mark of the sub-type would itself be a cluster number. */
  function MaxEntries(kind: FatKind): (n: nat) {
    match kind
    case Fat12 => 0xFF7
    case Fat16 => 0xFFF7
    case Fat32 => 0x0FFF_FFF7
  }

  /** The FAT size chk_mounted demands, in bytes. */
  function TableBytes(kind: FatKind, n: nat): (b: nat) {
    match kind
    case Fat12 => n * 3 / 2 + n % 2
    case Fat16 => n * 2
    case Fat32 => n * 4
  }

  /** Values a FAT entry of the sub-type can hold. */
  function EntryMod(kind: FatKind): (m: nat) {
    match kind
    case Fat12 => 0x1000
    case Fat16 => 0x1_0000
    case Fat32 => 0x1000_0000
  }

  /** The entry of a cluster that must not be used. */
  function BadMark(kind: FatKind): (v: nat) {
    match kind
    case Fat12 => 0xFF7
    case Fat16 => 0xFFF7
    case Fat32 => 0x0FFF_FFF7
  }

  /** Above every cluster number of the volume, and not the bad-cluster mark. */
  predicate EndsChains(g: Geometry, v: nat) { v >= g.nFatent && v != BadMark(g.kind) }

  /** A value cut to the width of an entry. */
  function Cut(kind: FatKind, val: nat): (v: nat)
    ensures v < EntryMod(kind)
    ensures val < EntryMod(kind) ==> v == val
  {
    match kind
    case Fat12 => val % 0x1000
    case Fat16 => val % 0x1_0000
    case Fat32 => val % 0x1000_0000
  }

  ghost predicate DiskOk(g: Geometry, d: seq<Sector>) {
    |d| == g.total && forall i :: 0 <= i < |d| ==> |d[i]| == g.ss
  }

  /** One sector written, and written again to the second copy when it is a FAT sector. */
  function Put(g: Geometry, d: seq<Sector>, s: nat, data: Sector): (r: seq<Sector>)
    requires g.Valid() && |d| == g.total && g.Writable(s)
    ensures |r| == |d|
  {
    if g.InFat(s) && g.nFats == 2 then d[s := data][s + g.fsize := data] else d[s := data]
  }

  ghost predicate CopiesAgree(g: Geometry, d: seq<Sector>, i: int)
    requires g.Valid() && |d| == g.total && g.nFats == 2 && g.InFat(i)
  {
    d[i] == d[i + g.fsize]
  }

  /** Both FAT copies hold the same bytes. */
  ghost predicate Mirrored(g: Geometry, d: seq<Sector>)
    requires g.Valid() && |d| == g.total
  {
    g.nFats == 2 ==> forall i {:trigger CopiesAgree(g, d, i)} :: g.InFat(i) ==> CopiesAgree(g, d, i)
  }

  /** The two disks agree everywhere outside the FAT copies. */
  ghost predicate SameOutsideFat(g: Geometry, d: seq<Sector>, e: seq<Sector>)
    requires g.Valid() && |d| == |e| == g.total
  {
    forall i :: 0 <= i < g.total && !(g.fatbase <= i < g.FatEnd()) ==> d[i] == e[i]
  }

  lemma {:induction false} PutFacts(g: Geometry, d: seq<Sector>, s: nat, data: Sector)
    requires g.Valid() && DiskOk(g, d) && g.Writable(s) && |data| == g.ss
    ensures DiskOk(g, Put(g, d, s, data))
    ensures Put(g, d, s, data)[s] == data
    ensures forall i ::
      0 <= i < g.total && i != s && (g.InFat(s) && g.nFats == 2 ==> i != s + g.fsize)
      ==> Put(g, d, s, data)[i] == d[i]
    ensures g.InFat(s) ==> SameOutsideFat(g, d, Put(g, d, s, data))
  {
  }

  lemma {:induction false} PutMirrors(g: Geometry, d: seq<Sector>, s: nat, data: Sector)
    requires g.Valid() && DiskOk(g, d) && g.Writable(s) && Mirrored(g, d)
    ensures Mirrored(g, Put(g, d, s, data))
  {
    if g.nFats == 2 {
      forall i | g.InFat(i)
        ensures CopiesAgree(g, Put(g, d, s, data), i)
      {
        assert CopiesAgree(g, d, i);
      }
    }
  }

  lemma {:induction false} PutTwice(g: Geometry, d: seq<Sector>, s: nat, data: Sector, again: Sector)
    requires g.Valid() && |d| == g.total && g.Writable(s)
    ensures Put(g, Put(g, d, s, data), s, again) == Put(g, d, s, again)
  {
    var x, y := Put(g, Put(g, d, s, data), s, again), Put(g, d, s, again);
    assert forall i :: 0 <= i < |d| ==> x[i] == y[i];
  }
}
