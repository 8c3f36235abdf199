/** FAT entries of the three widths inside the bytes of one FAT copy. */
module FatEntries {
  import opened Arithmetic
  import opened Bytes
  import opened FatGeometry

  /** Offset of the first byte of entry `c` in the table. */
  function EntryOffset(kind: FatKind, c: nat): (o: nat) {
    match kind
    case Fat12 => c + c / 2
    case Fat16 => 2 * c
    case Fat32 => 4 * c
  }

  /** Bytes an entry touches. */
  function EntryWidth(kind: FatKind): (w: nat) {
    if kind.Fat32? then 4 else 2
  }

  predicate Holds(kind: FatKind, f: seq<byte>, c: nat) {
    EntryOffset(kind, c) + EntryWidth(kind) <= |f|
  }

  /** The size chk_mounted demands of a FAT is enough for every entry of the volume. */
  lemma {:induction false} TableHolds(kind: FatKind, f: seq<byte>, n: nat, c: nat)
    requires TableBytes(kind, n) <= |f| && c < n
    ensures Holds(kind, f, c)
  {
  }

  function Word16(f: seq<byte>, o: nat): (v: nat)
    requires o + 2 <= |f|
    ensures v < 0x1_0000
  {
    var lo: int, hi: int := f[o], f[o + 1];
    lo + 0x100 * hi
  }

  function Word32(f: seq<byte>, o: nat): (v: nat)
    requires o + 4 <= |f|
    ensures v < U32
  {
    var hi: int := Word16(f, o + 2);
    Word16(f, o) + 0x1_0000 * hi
  }

  /** The value of entry `c`. */
  function Get(kind: FatKind, f: seq<byte>, c: nat): (v: nat)
    requires Holds(kind, f, c)
    ensures v < EntryMod(kind)
  {
    var o := EntryOffset(kind, c);
    match kind
    case Fat12 => if c % 2 == 1 then Word16(f, o) / 16 else Word16(f, o) % 0x1000
    case Fat16 => Word16(f, o)
    case Fat32 => Word32(f, o) % 0x1000_0000
  }

  /** An entry is the little-endian value of its bytes: all of it, its low 28 bits, or one of its 12-bit ends. */
  lemma {:induction false} GetIsLittleEndian(kind: FatKind, f: seq<byte>, c: nat)
    requires Holds(kind, f, c)
    ensures match kind
      case Fat12 =>
        var v := LittleEndian(f[c * 3 / 2..c * 3 / 2 + 2]);
        Get(kind, f, c) == if c % 2 == 1 then v / 16 else v % 0x1000
      case Fat16 => Get(kind, f, c) == LittleEndian(f[2 * c..2 * c + 2])
      case Fat32 => Get(kind, f, c) == LittleEndian(f[4 * c..4 * c + 4]) % 0x1000_0000
  {
    match kind
    case Fat12 =>
      assert c + c / 2 == c * 3 / 2;
      LittlePair(f[c * 3 / 2..c * 3 / 2 + 2]);
    case Fat16 => LittlePair(f[2 * c..2 * c + 2]);
    case Fat32 => LittleWord(f[4 * c..4 * c + 4]);
  }

  lemma {:induction false} LittlePair(s: seq<byte>)
    requires |s| == 2
    ensures LittleEndian(s) == Word16(s, 0)
  {
    assert s[1..] == [s[1]] && [s[1]][1..] == [];
    assert LittleEndian([s[1]]) == s[1];
  }

  lemma {:induction false} LittleWord(s: seq<byte>)
    requires |s| == 4
    ensures LittleEndian(s) == Word32(s, 0)
  {
    assert s[1..][1..] == s[2..] && s[1..][0] == s[1] && s[2..][0] == s[2] && s[2..][1] == s[3];
    LittlePair(s[2..]);
  }

  /** Bitwise or of two half-bytes. */
  function OrNibble(a: nat, b: nat): (r: nat)
    requires a < 16 && b < 16
    ensures r < 16
  {
    ((a as bv4) | (b as bv4)) as nat
  }

  lemma {:induction false} OrNibbleZero(b: nat)
    requires b < 16
    ensures OrNibble(0, b) == b
  {
    assert (0 as bv4) | (b as bv4) == b as bv4;
  }

  /** What put_fat stores in a 32-bit entry: the reserved top half-byte of the old word is kept. */
  function Merge32(old32: nat, val: nat): (v: nat)
    requires old32 < U32 && val < U32
    ensures v < U32 && v % 0x1000_0000 == val % 0x1000_0000
  {
    val % 0x1000_0000 + 0x1000_0000 * OrNibble(val / 0x1000_0000, old32 / 0x1000_0000)
  }

  function Bytes32(v: nat): (s: seq<byte>)
    requires v < U32
    ensures |s| == 4 && Word32(s, 0) == v
  {
    var lo, hi := v % 0x1_0000, v / 0x1_0000;
    [lo % 256, lo / 256, hi % 256, hi / 256]
  }

  /** The first and the second byte of a FAT12 entry when `val` is stored over `old8`. */
  function First12(c: nat, old8: byte, val: nat): (b: byte) {
    if c % 2 == 1 then old8 % 16 + 16 * (val % 16) else val % 256
  }

  function Second12(c: nat, old8: byte, val: nat): (b: byte) {
    if c % 2 == 1 then val / 16 % 256 else old8 / 16 * 16 + val / 256 % 16
  }

  /** The bytes put_fat stores at the offset of entry `c`. */
  function NewBytes(kind: FatKind, f: seq<byte>, c: nat, val: nat): (s: seq<byte>)
    requires Holds(kind, f, c) && val < U32
    ensures |s| == EntryWidth(kind)
  {
    var o := EntryOffset(kind, c);
    match kind
    case Fat12 => [First12(c, f[o], val), Second12(c, f[o + 1], val)]
    case Fat16 => [val % 256, val / 256 % 256]
    case Fat32 => Bytes32(Merge32(Word32(f, o), val))
  }

  /** The table after put_fat stored `val` in entry `c`. */
  function Set(kind: FatKind, f: seq<byte>, c: nat, val: nat): (r: seq<byte>)
    requires Holds(kind, f, c) && val < U32
    ensures |r| == |f|
  {
    Blit(f, EntryOffset(kind, c), NewBytes(kind, f, c, val))
  }

  /** An even FAT12 entry is a byte and the low half of the next one, an odd entry the rest. */
  lemma {:induction false} Get12(f: seq<byte>, c: nat)
    requires Holds(Fat12, f, c)
    ensures var o := c + c / 2; Get(Fat12, f, c) == Join12(c, f[o], f[o + 1])
  {
  }

  function Join12(c: nat, lo: byte, hi: byte): (v: nat) {
    if c % 2 == 1 then lo as int / 16 + 16 * hi as int else lo as int + 0x100 * (hi as int % 16)
  }

  lemma {:induction false} Stored12(c: nat, lo: byte, hi: byte, val: nat)
    ensures Join12(c, First12(c, lo, val), Second12(c, hi, val)) == val % 0x1000
  {
    var n, a := val % 16, val / 256 % 16;
    if c % 2 == 1 {
      DivModUnique(lo % 16 + 16 * n, 16, n, lo % 16);
      Digits(val, 16, 256);
    } else {
      DivModUnique(hi / 16 * 16 + a, 16, hi / 16, a);
      Digits(val, 256, 16);
    }
  }

  /** The half of the shared byte that belongs to the neighbour is not touched. */
  lemma {:induction false} Neighbour12(c: nat, x: byte, other: byte, val: nat)
    ensures c % 2 == 0 ==> Join12(c + 1, Second12(c, x, val), other) == Join12(c + 1, x, other)
    ensures c % 2 == 1 ==> Join12(c - 1, other, First12(c, x, val)) == Join12(c - 1, other, x)
  {
    var n, a := val % 16, val / 256 % 16;
    DivModUnique(x % 16 + 16 * n, 16, n, x % 16);
    DivModUnique(x / 16 * 16 + a, 16, x / 16, a);
  }

  lemma {:induction false} SetAt(kind: FatKind, f: seq<byte>, c: nat, val: nat, k: nat)
    requires Holds(kind, f, c) && val < U32 && k < |f|
    ensures var o := EntryOffset(kind, c);
      Set(kind, f, c, val)[k]
      == if o <= k < o + EntryWidth(kind) then NewBytes(kind, f, c, val)[k - o] else f[k]
  {
    BlitAt(f, EntryOffset(kind, c), NewBytes(kind, f, c, val), k);
  }

  lemma {:induction false} SetThenGet12(f: seq<byte>, c: nat, val: nat, e: nat)
    requires Holds(Fat12, f, c) && Holds(Fat12, f, e) && val < U32
    ensures Get(Fat12, Set(Fat12, f, c, val), e) == if e == c then val % 0x1000 else Get(Fat12, f, e)
  {
    var r, o, p := Set(Fat12, f, c, val), c + c / 2, e + e / 2;
    Get12(f, e);
    Get12(r, e);
    SetAt(Fat12, f, c, val, o);
    SetAt(Fat12, f, c, val, o + 1);
    SetAt(Fat12, f, c, val, p);
    SetAt(Fat12, f, c, val, p + 1);
    assert r[o] == First12(c, f[o], val) && r[o + 1] == Second12(c, f[o + 1], val);
    Stored12(c, f[o], f[o + 1], val);
    if e == c + 1 && c % 2 == 0 {
      Neighbour12(c, f[o + 1], f[p + 1], val);
      assert r[p + 1] == f[p + 1];
    } else if e + 1 == c && c % 2 == 1 {
      Neighbour12(c, f[o], f[p], val);
      assert r[p] == f[p];
    } else if e != c {
      Apart12(c, e);
      assert r[p] == f[p] && r[p + 1] == f[p + 1];
    }
  }

  lemma {:induction false} Apart12(c: nat, e: nat)
    requires e != c && !(e == c + 1 && c % 2 == 0) && !(e + 1 == c && c % 2 == 1)
    ensures e + e / 2 + 1 < c + c / 2 || c + c / 2 + 1 < e + e / 2
  {
  }

  lemma {:induction false} Set32(f: seq<byte>, c: nat, val: nat, e: nat)
    requires Holds(Fat32, f, c) && Holds(Fat32, f, e) && val < U32
    ensures Word32(Set(Fat32, f, c, val), 4 * e)
      == if e == c then Merge32(Word32(f, 4 * c), val) else Word32(f, 4 * e)
  {
    var r := Set(Fat32, f, c, val);
    SetAt(Fat32, f, c, val, 4 * e);
    SetAt(Fat32, f, c, val, 4 * e + 1);
    SetAt(Fat32, f, c, val, 4 * e + 2);
    SetAt(Fat32, f, c, val, 4 * e + 3);
  }

  /**
   * The table behaves as an array: the stored value, cut to the entry width,
   * is read back and every other entry keeps its value, including the FAT12
   * neighbour that shares a byte.
   */
  lemma {:induction false} SetThenGet(kind: FatKind, f: seq<byte>, c: nat, val: nat, e: nat)
    requires Holds(kind, f, c) && Holds(kind, f, e) && val < U32
    ensures Get(kind, Set(kind, f, c, val), e) == if e == c then Cut(kind, val) else Get(kind, f, e)
  {
    match kind
    case Fat12 => SetThenGet12(f, c, val, e);
    case Fat16 =>
      SetAt(Fat16, f, c, val, 2 * e);
      SetAt(Fat16, f, c, val, 2 * e + 1);
      Digits(val, 256, 256);
    case Fat32 => Set32(f, c, val, e);
  }

  /** The reserved top four bits of a FAT32 word. */
  function Reserved(v: nat): (r: nat)
    requires v < U32
    ensures r < 16
  {
    v / 0x1000_0000
  }

  /**
   * The reserved bits of an updated FAT32 word are its old ones and those of the value; so they survive an update with
   * a cluster value. The other words keep theirs.
   */
  lemma {:induction false} ReservedBitsSurvive(f: seq<byte>, c: nat, val: nat, e: nat)
    requires Holds(Fat32, f, c) && Holds(Fat32, f, e) && val < U32
    ensures var before, after := Reserved(Word32(f, 4 * e)), Reserved(Word32(Set(Fat32, f, c, val), 4 * e));
            && after == (if e == c then OrNibble(Reserved(val), before) else before)
            && (val < 0x1000_0000 ==> after == before)
  {
    Set32(f, c, val, e);
    OrNibbleZero(Reserved(Word32(f, 4 * c)));
  }
}

/** The first FAT copy read off the sectors of a disk. */
module FatTable {
  import opened Arithmetic
  import opened Bytes
  import opened FatGeometry
  import opened FatEntries

  /** All bytes of the first FAT copy. */
  function Flat(g: Geometry, d: seq<Sector>): (f: seq<byte>)
    requires g.Valid() && DiskOk(g, d)
    ensures |f| == g.FatBytes()
  {
    FlatTo(g, d, g.fsize)
  }

  /** The bytes of its first `n` sectors. */
  function FlatTo(g: Geometry, d: seq<Sector>, n: nat): (f: seq<byte>)
    requires g.Valid() && DiskOk(g, d) && n <= g.fsize
    ensures |f| == Product(n, g.ss)
    decreases n
  {
    if n == 0 then [] else FlatTo(g, d, n - 1) + d[g.fatbase + n - 1]
  }

  lemma {:induction false} FlatToAt(g: Geometry, d: seq<Sector>, n: nat, i: nat)
    requires g.Valid() && DiskOk(g, d) && n <= g.fsize && i < Product(n, g.ss)
    ensures Quot(i, g.ss) < n && FlatTo(g, d, n)[i] == d[g.fatbase + Quot(i, g.ss)][Rem(i, g.ss)]
    decreases n
  {
    if i < Product(n - 1, g.ss) {
      FlatToAt(g, d, n - 1, i);
    } else {
      QuotUnique(i, g.ss, n - 1, i - Product(n - 1, g.ss));
    }
  }

  /** Byte `i` of the table lies in FAT sector `i / ss`. */
  lemma {:induction false} ByteSector(g: Geometry, i: nat)
    requires g.Valid() && i < g.FatBytes()
    ensures Quot(i, g.ss) < g.fsize
  {
    QuotBelow(i, g.fsize, g.ss);
  }

  /** The table lies in the sectors from `fatbase` on, byte behind byte. */
  lemma {:induction false} FlatAt(g: Geometry, d: seq<Sector>, i: nat)
    requires g.Valid() && DiskOk(g, d) && i < g.FatBytes()
    ensures Quot(i, g.ss) < g.fsize && Flat(g, d)[i] == d[g.fatbase + Quot(i, g.ss)][Rem(i, g.ss)]
  {
    ByteSector(g, i);
    FlatToAt(g, d, g.fsize, i);
  }

  /** The disk with byte `i` of the FAT replaced (in every copy of the table). */
  function Poke(g: Geometry, d: seq<Sector>, i: nat, b: byte): (r: seq<Sector>)
    requires g.Valid() && DiskOk(g, d) && i < g.FatBytes()
    ensures DiskOk(g, r)
  {
    ByteSector(g, i);
    var s := g.fatbase + Quot(i, g.ss);
    PutFacts(g, d, s, d[s][Rem(i, g.ss) := b]);
    Put(g, d, s, d[s][Rem(i, g.ss) := b])
  }

  function PokeAll(g: Geometry, d: seq<Sector>, i: nat, bs: seq<byte>): (r: seq<Sector>)
    requires g.Valid() && DiskOk(g, d) && i + |bs| <= g.FatBytes()
    ensures DiskOk(g, r)
    decreases |bs|
  {
    if bs == [] then d else PokeAll(g, Poke(g, d, i, bs[0]), i + 1, bs[1..])
  }

  /** Only the FAT copies differ, and they agree with each other if they did before. */
  ghost predicate FatOnly(g: Geometry, d: seq<Sector>, e: seq<Sector>)
    requires g.Valid() && DiskOk(g, d) && DiskOk(g, e)
  {
    SameOutsideFat(g, d, e) && (Mirrored(g, d) ==> Mirrored(g, e))
  }

  lemma {:induction false} PokeFlat(g: Geometry, d: seq<Sector>, i: nat, b: byte)
    requires g.Valid() && DiskOk(g, d) && i < g.FatBytes()
    ensures Flat(g, Poke(g, d, i, b)) == Flat(g, d)[i := b]
  {
    var r := Poke(g, d, i, b);
    forall j | 0 <= j < g.FatBytes()
      ensures Flat(g, r)[j] == Flat(g, d)[i := b][j]
    {
      PokeFlatAt(g, d, i, b, j);
    }
  }

  lemma {:induction false} PokeFlatAt(g: Geometry, d: seq<Sector>, i: nat, b: byte, j: nat)
    requires g.Valid() && DiskOk(g, d) && i < g.FatBytes() && j < g.FatBytes()
    ensures Flat(g, Poke(g, d, i, b))[j] == if j == i then b else Flat(g, d)[j]
  {
    ByteSector(g, i);
    var s := g.fatbase + Quot(i, g.ss);
    PutFacts(g, d, s, d[s][Rem(i, g.ss) := b]);
    FlatAt(g, d, j);
    FlatAt(g, Poke(g, d, i, b), j);
    if Quot(j, g.ss) == Quot(i, g.ss) && Rem(j, g.ss) == Rem(i, g.ss) {
      QuotInjective(i, j, g.ss);
    }
  }

  lemma {:induction false} PokeFrame(g: Geometry, d: seq<Sector>, i: nat, b: byte)
    requires g.Valid() && DiskOk(g, d) && i < g.FatBytes()
    ensures FatOnly(g, d, Poke(g, d, i, b))
  {
    ByteSector(g, i);
    var s := g.fatbase + Quot(i, g.ss);
    PutFacts(g, d, s, d[s][Rem(i, g.ss) := b]);
    if Mirrored(g, d) {
      PutMirrors(g, d, s, d[s][Rem(i, g.ss) := b]);
    }
  }

  lemma {:induction false} PokeAllFlat(g: Geometry, d: seq<Sector>, i: nat, bs: seq<byte>)
    requires g.Valid() && DiskOk(g, d) && i + |bs| <= g.FatBytes()
    ensures Flat(g, PokeAll(g, d, i, bs)) == Blit(Flat(g, d), i, bs)
    ensures FatOnly(g, d, PokeAll(g, d, i, bs))
    decreases |bs|
  {
    if bs != [] {
      PokeFlat(g, d, i, bs[0]);
      PokeFrame(g, d, i, bs[0]);
      PokeAllFlat(g, Poke(g, d, i, bs[0]), i + 1, bs[1..]);
    }
  }

  predicate IsCluster(g: Geometry, c: int) { 2 <= c < g.nFatent }

  /** get_fat on the sectors themselves. */
  function Entry(g: Geometry, d: seq<Sector>, c: nat): (v: nat)
    requires g.Valid() && DiskOk(g, d) && c < g.nFatent
    ensures v < EntryMod(g.kind)
  {
    TableHolds(g.kind, Flat(g, d), g.nFatent, c);
    Get(g.kind, Flat(g, d), c)
  }

  /** put_fat on the sectors themselves. */
  function PutEntry(g: Geometry, d: seq<Sector>, c: nat, val: nat): (r: seq<Sector>)
    requires g.Valid() && DiskOk(g, d) && c < g.nFatent && val < U32
    ensures DiskOk(g, r)
  {
    TableHolds(g.kind, Flat(g, d), g.nFatent, c);
    PokeAll(g, d, EntryOffset(g.kind, c), NewBytes(g.kind, Flat(g, d), c, val))
  }

  /** The whole table as a sequence; slots 0 and 1 are not clusters and read as 0. */
  function Table(g: Geometry, d: seq<Sector>): (t: seq<nat>)
    requires g.Valid() && DiskOk(g, d)
    ensures |t| == g.nFatent
  {
    TableTo(g, d, g.nFatent)
  }

  function TableTo(g: Geometry, d: seq<Sector>, n: nat): (t: seq<nat>)
    requires g.Valid() && DiskOk(g, d) && n <= g.nFatent
    ensures |t| == n
    decreases n
  {
    if n == 0 then [] else TableTo(g, d, n - 1) + [if n <= 2 then 0 else Entry(g, d, n - 1)]
  }

  lemma {:induction false} TableToAt(g: Geometry, d: seq<Sector>, n: nat, c: nat)
    requires g.Valid() && DiskOk(g, d) && n <= g.nFatent && c < n
    ensures TableTo(g, d, n)[c] == if c < 2 then 0 else Entry(g, d, c)
    decreases n
  {
    if c < n - 1 {
      TableToAt(g, d, n - 1, c);
    }
  }

  lemma {:induction false} TableAt(g: Geometry, d: seq<Sector>, c: nat)
    requires g.Valid() && DiskOk(g, d) && c < g.nFatent
    ensures Table(g, d)[c] == if c < 2 then 0 else Entry(g, d, c)
    ensures Table(g, d)[c] < 0x1000_0000
  {
    TableToAt(g, d, g.nFatent, c);
  }

  /** put_fat is a sequence update of the table and touches nothing but the FAT copies. */
  lemma {:induction false} TablePut(g: Geometry, d: seq<Sector>, c: nat, val: nat)
    requires g.Valid() && DiskOk(g, d) && IsCluster(g, c) && val < U32
    ensures Table(g, PutEntry(g, d, c, val)) == Table(g, d)[c := Cut(g.kind, val)]
    ensures FatOnly(g, d, PutEntry(g, d, c, val))
  {
    var f, d' := Flat(g, d), PutEntry(g, d, c, val);
    TableHolds(g.kind, f, g.nFatent, c);
    PokeAllFlat(g, d, EntryOffset(g.kind, c), NewBytes(g.kind, f, c, val));
    forall e | 0 <= e < g.nFatent
      ensures Table(g, d')[e] == Table(g, d)[c := Cut(g.kind, val)][e]
    {
      TableAt(g, d, e);
      TableAt(g, d', e);
      TableHolds(g.kind, f, g.nFatent, e);
      SetThenGet(g.kind, f, c, val, e);
    }
  }

  lemma {:induction false} TableToFrame(g: Geometry, d: seq<Sector>, d': seq<Sector>, n: nat)
    requires g.Valid() && DiskOk(g, d) && DiskOk(g, d') && Flat(g, d) == Flat(g, d') && n <= g.nFatent
    ensures TableTo(g, d, n) == TableTo(g, d', n)
    decreases n
  {
    if n > 0 {
      TableToFrame(g, d, d', n - 1);
    }
  }

  /** Disks with equal FAT sectors have equal tables. */
  lemma {:induction false} TableFrame(g: Geometry, d: seq<Sector>, d': seq<Sector>)
    requires g.Valid() && DiskOk(g, d) && DiskOk(g, d')
    requires forall i :: g.InFat(i) ==> d[i] == d'[i]
    ensures Table(g, d) == Table(g, d')
  {
    forall i | 0 <= i < g.FatBytes()
      ensures Flat(g, d)[i] == Flat(g, d')[i]
    {
      FlatAt(g, d, i);
      FlatAt(g, d', i);
      assert g.InFat(g.fatbase + Quot(i, g.ss));
    }
    assert Flat(g, d) == Flat(g, d');
    TableToFrame(g, d, d', g.nFatent);
  }
}
