/** The virtual disc: its bytes, from the fragments and the device. */
module FragDisc {
  import opened Bytes
  import opened Arithmetic
  import opened FragList
  import opened FragTrail

  /** A fragment list over a device with `unit`-byte sectors; the device is its bytes. */
  datatype Disc = Disc(list: Setup, unit: nat, device: nat -> byte)

  /** Byte k of a sector. */
  function PlaceByte(d: Disc, p: Place, k: nat): (r: byte) {
    match p
    case Gap => 0
    case Device(s) => d.device(Product(s, d.unit) + k)
  }

  function DiscByte(d: Disc, b: nat): (r: byte)
    requires d.unit > 0
  {
    PlaceByte(d, Where(d.list.frags, Quot(b, d.unit)), Rem(b, d.unit))
  }

  /** Which byte of the device a mapped byte of the disc is. */
  lemma {:induction false} DiscByteAddress(d: Disc, i: nat, b: nat)
    requires d.unit > 0 && Sound(d.list) && i < |d.list.frags| && Covers(d.list.frags[i], b / d.unit)
    ensures var f := d.list.frags[i];
            var s := f.sector + (b / d.unit - f.offset);
            DiscByte(d, b) == d.device(Product(s, d.unit) + b % d.unit)
  {
    QuotIs(b, d.unit);
    AtFragment(d.list.frags, i, b / d.unit);
  }

  /** n bytes of the disc from byte b on. */
  function DiscBytes(d: Disc, b: nat, n: nat): (r: seq<byte>)
    requires d.unit > 0
    ensures |r| == n
  {
    if n == 0 then [] else DiscBytes(d, b, n - 1) + [DiscByte(d, b + n - 1)]
  }

  lemma {:induction false} DiscBytesAt(d: Disc, b: nat, n: nat, k: nat)
    requires d.unit > 0 && k < n
    ensures DiscBytes(d, b, n)[k] == DiscByte(d, b + k)
  {
    if k < n - 1 {
      DiscBytesAt(d, b, n - 1, k);
    }
  }

  lemma {:induction false} DiscBytesJoin(d: Disc, b: nat, m: nat, n: nat)
    requires d.unit > 0
    ensures DiscBytes(d, b, m) + DiscBytes(d, b + m, n) == DiscBytes(d, b, m + n)
  {
    if n > 0 {
      DiscBytesJoin(d, b, m, n - 1);
      assert DiscBytes(d, b, m) + DiscBytes(d, b + m, n)
          == DiscBytes(d, b, m) + DiscBytes(d, b + m, n - 1) + [DiscByte(d, b + m + n - 1)];
    } else {
      assert DiscBytes(d, b + m, n) == [];
    }
  }

  /** n bytes of the device from byte b on. */
  function DeviceBytes(d: Disc, b: nat, n: nat): (r: seq<byte>)
    ensures |r| == n && forall k :: 0 <= k < n ==> r[k] == d.device(b + k)
  {
    if n == 0 then [] else DeviceBytes(d, b, n - 1) + [d.device(b + n - 1)]
  }

  /** Byte x of what these places bring. */
  function DeliveredByte(d: Disc, p: seq<Place>, x: nat): (r: byte)
    requires d.unit > 0 && x < Product(|p|, d.unit)
  {
    QuotBelow(x, |p|, d.unit);
    PlaceByte(d, p[Quot(x, d.unit)], Rem(x, d.unit))
  }

  function FirstBytes(d: Disc, p: seq<Place>, n: nat): (r: seq<byte>)
    requires d.unit > 0 && n <= Product(|p|, d.unit)
    ensures |r| == n
  {
    if n == 0 then [] else FirstBytes(d, p, n - 1) + [DeliveredByte(d, p, n - 1)]
  }

  lemma {:induction false} FirstBytesAt(d: Disc, p: seq<Place>, n: nat, x: nat)
    requires d.unit > 0 && x < n <= Product(|p|, d.unit)
    ensures FirstBytes(d, p, n)[x] == DeliveredByte(d, p, x)
  {
    if x < n - 1 {
      FirstBytesAt(d, p, n - 1, x);
    }
  }

  /** The bytes of these places. */
  function Delivered(d: Disc, p: seq<Place>): (r: seq<byte>)
    requires d.unit > 0
    ensures |r| == Product(|p|, d.unit)
  {
    FirstBytes(d, p, Product(|p|, d.unit))
  }

  lemma {:induction false} DeliveredAt(d: Disc, p: seq<Place>, x: nat)
    requires d.unit > 0 && x < Product(|p|, d.unit)
    ensures Delivered(d, p)[x] == DeliveredByte(d, p, x)
  {
    FirstBytesAt(d, p, Product(|p|, d.unit), x);
  }

  lemma {:induction false} DeliveredIs(d: Disc, p: seq<Place>, r: seq<byte>)
    requires d.unit > 0 && |r| == Product(|p|, d.unit)
    requires forall x :: 0 <= x < |r| ==> r[x] == DeliveredByte(d, p, x)
    ensures Delivered(d, p) == r
  {
    forall x | 0 <= x < |r|
      ensures Delivered(d, p)[x] == r[x]
    {
      DeliveredAt(d, p, x);
    }
  }

  /** A byte of a run of sectors. */
  lemma {:induction false} InRun(s: nat, count: nat, unit: nat, k: nat)
    requires unit > 0 && k < Product(count, unit)
    ensures Quot(Product(s, unit) + k, unit) == s + Quot(k, unit) && Rem(Product(s, unit) + k, unit) == Rem(k, unit)
    ensures Quot(k, unit) < count
  {
    QuotAdd(k, s, unit);
    QuotBelow(k, count, unit);
  }

  lemma {:induction false} JoinByte(d: Disc, p: seq<Place>, q: seq<Place>, x: nat)
    requires d.unit > 0 && x < Product(|p|, d.unit) + Product(|q|, d.unit) == Product(|p + q|, d.unit)
    ensures (Delivered(d, p) + Delivered(d, q))[x] == DeliveredByte(d, p + q, x)
  {
    var m := Product(|p|, d.unit);
    if x < m {
      DeliveredAt(d, p, x);
      QuotBelow(x, |p|, d.unit);
    } else {
      DeliveredAt(d, q, x - m);
      InRun(|p|, |q|, d.unit, x - m);
    }
  }

  lemma {:induction false} DeliveredJoin(d: Disc, p: seq<Place>, q: seq<Place>)
    requires d.unit > 0
    ensures Delivered(d, p + q) == Delivered(d, p) + Delivered(d, q)
  {
    var r := Delivered(d, p) + Delivered(d, q);
    ProductSum(|p|, |q|, d.unit);
    forall x | 0 <= x < |r|
      ensures r[x] == DeliveredByte(d, p + q, x)
    {
      JoinByte(d, p, q, x);
    }
    DeliveredIs(d, p + q, r);
  }

  lemma {:induction false} GapsDelivered(d: Disc, n: nat)
    requires d.unit > 0
    ensures Delivered(d, Gaps(n)) == Zeros(Product(n, d.unit))
  {
    var r := Zeros(Product(n, d.unit));
    forall x | 0 <= x < |r|
      ensures r[x] == DeliveredByte(d, Gaps(n), x)
    {
      QuotBelow(x, n, d.unit);
      GapsAt(n, Quot(x, d.unit));
    }
    DeliveredIs(d, Gaps(n), r);
  }

  lemma {:induction false} RunByte(s: nat, unit: nat, k: nat)
    requires unit > 0
    ensures Product(s + Quot(k, unit), unit) + Rem(k, unit) == Product(s, unit) + k
  {
    QuotProduct(k, unit);
    ProductSum(s, Quot(k, unit), unit);
  }

  lemma {:induction false} RunDelivered(d: Disc, s: nat, n: nat)
    requires d.unit > 0
    ensures Delivered(d, Run(s, n)) == DeviceBytes(d, Product(s, d.unit), Product(n, d.unit))
  {
    var r := DeviceBytes(d, Product(s, d.unit), Product(n, d.unit));
    forall x | 0 <= x < |r|
      ensures r[x] == DeliveredByte(d, Run(s, n), x)
    {
      QuotBelow(x, n, d.unit);
      RunAt(s, n, Quot(x, d.unit));
      RunByte(s, d.unit, x);
    }
    DeliveredIs(d, Run(s, n), r);
  }

  lemma {:induction false} StepDelivered(d: Disc, h: Hit, o: nat)
    requires d.unit > 0 && h.Hit? && o <= h.offset
    ensures Delivered(d, Step(h, o))
         == Zeros(Product(h.offset - o, d.unit)) + DeviceBytes(d, Product(h.sector, d.unit), Product(h.count, d.unit))
  {
    DeliveredJoin(d, Gaps(h.offset - o), Run(h.sector, h.count));
    GapsDelivered(d, h.offset - o);
    RunDelivered(d, h.sector, h.count);
  }

  lemma {:induction false} TrueByte(d: Disc, o: nat, n: nat, x: nat)
    requires d.unit > 0 && x < Product(n, d.unit)
    ensures DeliveredByte(d, Truth(d.list.frags, o, n), x) == DiscByte(d, Product(o, d.unit) + x)
  {
    InRun(o, n, d.unit, x);
    TruthAt(d.list.frags, o, n, Quot(x, d.unit));
  }

  /** The true places bring the bytes of the disc. */
  lemma {:induction false} TruthDelivered(d: Disc, o: nat, n: nat)
    requires d.unit > 0
    ensures Delivered(d, Truth(d.list.frags, o, n)) == DiscBytes(d, Product(o, d.unit), Product(n, d.unit))
  {
    var r := DiscBytes(d, Product(o, d.unit), Product(n, d.unit));
    forall x | 0 <= x < |r|
      ensures r[x] == DeliveredByte(d, Truth(d.list.frags, o, n), x)
    {
      DiscBytesAt(d, Product(o, d.unit), Product(n, d.unit), x);
      TrueByte(d, o, n, x);
    }
    DeliveredIs(d, Truth(d.list.frags, o, n), r);
  }

  /** Byte b is on the disc, or at least mapped. */
  ghost predicate Legible(d: Disc, b: nat)
    requires d.unit > 0
  {
    Quot(b, d.unit) < d.list.size || Where(d.list.frags, Quot(b, d.unit)) != Gap
  }

  /** Up to the next sector boundary, whole sectors, and the rest. */
  function Head(unit: nat, b: nat, len: nat): (n: nat)
    requires unit > 0
    ensures n <= len
  {
    PartLength(unit, Rem(b, unit), len)
  }

  function Whole(unit: nat, len: nat): (m: nat)
    requires unit > 0
    ensures m <= len
  {
    QuotProduct(len, unit);
    Product(Quot(len, unit), unit)
  }

  /** The last byte of a piece can be read. */
  ghost predicate PieceLegible(d: Disc, b: nat, n: nat)
    requires d.unit > 0
  {
    n > 0 ==> Legible(d, b + n - 1)
  }

  function Sum(cuts: seq<nat>): (n: nat) { if cuts == [] then 0 else cuts[0] + Sum(cuts[1..]) }

  /** From a sector boundary on: whole sectors, then what is left of the last one. */
  function Rest(unit: nat, len: nat): (cuts: seq<nat>)
    requires unit > 0
    ensures Sum(cuts) == len
  {
    var m := Whole(unit, len);
    SumNext(len - m, []);
    SumNext(m, [len - m]);
    [m] + [len - m]
  }

  /** A request is cut in three: up to the next sector boundary, whole sectors, and the rest. */
  function Cuts(unit: nat, b: nat, len: nat): (cuts: seq<nat>)
    requires unit > 0
    ensures Sum(cuts) == len
  {
    var n := Head(unit, b, len);
    SumNext(n, Rest(unit, len - n));
    [n] + Rest(unit, len - n)
  }

  lemma {:induction false} SumNext(n: nat, rest: seq<nat>)
    ensures Sum([n] + rest) == n + Sum(rest)
    ensures [n] + [] == [n]
  {
    assert ([n] + rest)[1..] == rest;
  }

  ghost predicate AllLegible(d: Disc, b: nat, cuts: seq<nat>)
    requires d.unit > 0
    decreases |cuts|
  {
    cuts != [] ==> PieceLegible(d, b, cuts[0]) && AllLegible(d, b + cuts[0], cuts[1..])
  }

  /** A request is served when each of its pieces can be read. */
  ghost predicate Served(d: Disc, b: nat, len: nat)
    requires d.unit > 0
  {
    AllLegible(d, b, Cuts(d.unit, b, len))
  }

  /** Every request within the disc is served. */
  lemma {:induction false} OnDiscServed(d: Disc, b: nat, len: nat)
    requires d.unit > 0 && b + len <= Product(d.list.size, d.unit)
    ensures Served(d, b, len)
  {
    CutsLegible(d, b, Cuts(d.unit, b, len));
  }

  lemma {:induction false} CutsLegible(d: Disc, b: nat, cuts: seq<nat>)
    requires d.unit > 0 && b + Sum(cuts) <= Product(d.list.size, d.unit)
    ensures AllLegible(d, b, cuts)
    decreases |cuts|
  {
    if cuts != [] {
      OnDiscLegible(d, b, cuts[0]);
      CutsLegible(d, b + cuts[0], cuts[1..]);
    }
  }

  lemma {:induction false} OnDiscLegible(d: Disc, b: nat, n: nat)
    requires d.unit > 0 && b + n <= Product(d.list.size, d.unit)
    ensures PieceLegible(d, b, n)
  {
    if n > 0 {
      QuotBelow(b + n - 1, d.list.size, d.unit);
    }
  }

  /** A word address as a sector and a byte in it. */
  lemma {:induction false} WordByte(w: nat, words: nat)
    requires words > 0
    ensures 4 * w == Product(Quot(w, words), 4 * words) + 4 * Rem(w, words)
    ensures 4 * w < Product(Quot(w, words) + 1, 4 * words)
  {
    var q := Quot(w, words);
    QuotProduct(w, words);
    ProductIs(q, words);
    ProductIs(q, 4 * words);
    ProductSum(q, 1, 4 * words);
    ProductIs(1, 4 * words);
  }

  /** A partial read that leaves something behind ends on a sector boundary. */
  lemma {:induction false} HeadAligned(w: nat, words: nat, len: nat)
    requires words > 0 && 4 * Rem(w, words) < 4 * words && PartLength(4 * words, 4 * Rem(w, words), len) < len
    ensures var n := PartLength(4 * words, 4 * Rem(w, words), len);
            n % 4 == 0 && Rem(w + n / 4, words) == 0
  {
    var n := PartLength(4 * words, 4 * Rem(w, words), len);
    if n > 0 {
      QuotNext(w, n / 4, words);
    }
  }

  /** The whole sectors of an aligned request. */
  lemma {:induction false} WholeSectors(len: nat, unit: nat)
    requires unit > 0 && len >= unit
    ensures var count := Quot(len, unit);
            count > 0 && Product(count, unit) <= len < Product(count, unit) + unit
  {
    QuotProduct(len, unit);
    QuotBelow(len, 1, unit);
    ProductIs(1, unit);
  }

  lemma {:induction false} WordsOfSectors(w: nat, words: nat, count: nat)
    requires words > 0 && Rem(w, words) == 0
    ensures 4 * (w + Product(count, words)) == 4 * w + Product(count, 4 * words)
    ensures Rem(w + Product(count, words), words) == 0
  {
    QuotAdd(w, count, words);
    ProductIs(count, words);
    ProductIs(count, 4 * words);
  }

  /** Bytes inside the sector at s. */
  lemma {:induction false} InSector(unit: nat, s: nat, k: nat)
    requires unit > 0 && k < unit
    ensures Quot(Product(s, unit) + k, unit) == s && Rem(Product(s, unit) + k, unit) == k
  {
    QuotUnique(Product(s, unit) + k, unit, s, k);
  }

  /** The middle part: m bytes, word after word, sector after sector. */
  ghost predicate Middling(unit: nat, w: nat, words: nat, len: nat, s: nat, count: nat, m: nat)
    requires words > 0 && unit > 0
  {
    && count > 0 && 0 < m == Product(count, unit) <= len < m + unit
    && 4 * w == Product(s, unit) && Quot(4 * w, unit) == s && Quot(4 * w + m - 1, unit) == s + count - 1
    && m % 4 == 0 && Rem(w + m / 4, words) == 0
  }

  lemma {:induction false} Middle(unit: nat, w: nat, words: nat, len: nat)
    requires words > 0 && unit == 4 * words && Rem(w, words) == 0 && len >= unit
    ensures Middling(unit, w, words, len, Quot(w, words), Quot(len, unit), Product(Quot(len, unit), unit))
  {
    var s, count := Quot(w, words), Quot(len, unit);
    WordByte(w, words);
    WholeSectors(len, unit);
    WordsOfSectors(w, words, count);
    InSector(unit, s, 0);
    ProductSum(s, count, unit);
    ProductGap(s + count - 1, s + count, unit);
    InSector(unit, s + count - 1, unit - 1);
    ProductSum(s + count - 1, 1, unit);
    ProductIs(1, unit);
    ProductGap(0, count, unit);
  }

  /** How much of the first sector a partial read takes; a whole sector is left to the sector read. */
  function PartLength(unit: nat, mod: nat, len: nat): (r: nat)
    requires mod < unit
    ensures r <= len && mod + r <= unit
  {
    var m := Least(unit - mod, len);
    if m == unit then 0 else m
  }

  /** The code of a read, and what it delivers when that is 0. */
  datatype Got = Got(code: int, bytes: seq<byte>)

  /** How many sectors n bytes lie in. */
  function Sectors(unit: nat, b: nat, n: nat): (k: nat)
    requires unit > 0 && n > 0
    ensures k > 0 && Rem(b, unit) + n <= Product(k, unit) && Quot(b, unit) + k - 1 == Quot(b + n - 1, unit)
  {
    Span(unit, b, n);
    Quot(b + n - 1, unit) + 1 - Quot(b, unit)
  }

  lemma {:induction false} Span(unit: nat, b: nat, n: nat)
    requires unit > 0 && n > 0
    ensures Quot(b, unit) <= Quot(b + n - 1, unit)
    ensures Rem(b, unit) + n <= Product(Quot(b + n - 1, unit) + 1 - Quot(b, unit), unit)
  {
    var s, e := Quot(b, unit), Quot(b + n - 1, unit);
    QuotMono(b, b + n - 1, unit);
    QuotProduct(b, unit);
    QuotProduct(b + n - 1, unit);
    ProductSum(s, e + 1 - s, unit);
    ProductSum(e, 1, unit);
    ProductIs(1, unit);
  }

  /** n bytes by one read of the sectors they lie in. */
  function Piece(d: Disc, b: nat, n: nat): (g: Got)
    requires d.unit > 0
    ensures g.code == 0 ==> |g.bytes| == n
  {
    if n == 0 then Got(0, []) else Cutout(d, Follow(d.list, Quot(b, d.unit), Sectors(d.unit, b, n)), Rem(b, d.unit), n)
  }

  function Cutout(d: Disc, t: Trail, mod: nat, n: nat): (g: Got)
    requires d.unit > 0 && (t.code == 0 ==> mod + n <= Product(|t.places|, d.unit))
    ensures g.code == t.code && (g.code == 0 ==> |g.bytes| == n)
  {
    if t.code != 0 then Got(t.code, []) else Got(0, Delivered(d, t.places)[mod..mod + n])
  }

  function Then(a: Got, b: Got): (g: Got) {
    if a.code != 0 then a else if b.code != 0 then b else Got(0, a.bytes + b.bytes)
  }

  function PiecesGot(d: Disc, b: nat, cuts: seq<nat>): (g: Got)
    requires d.unit > 0
    ensures g.code == 0 ==> |g.bytes| == Sum(cuts)
    decreases |cuts|
  {
    if cuts == [] then Got(0, []) else Then(Piece(d, b, cuts[0]), PiecesGot(d, b + cuts[0], cuts[1..]))
  }

  /** What a read of `len` bytes from byte b on does. */
  function ReadGot(d: Disc, b: nat, len: nat): (g: Got)
    requires d.unit > 0
  {
    PiecesGot(d, b, Cuts(d.unit, b, len))
  }

  /** No search made for these bytes is misled. */
  ghost predicate PieceStraight(d: Disc, b: nat, n: nat)
    requires d.unit > 0
  {
    n > 0 ==> Straight(d.list, Quot(b, d.unit), Sectors(d.unit, b, n))
  }

  ghost predicate AllStraight(d: Disc, b: nat, cuts: seq<nat>)
    requires d.unit > 0
    decreases |cuts|
  {
    cuts != [] ==> PieceStraight(d, b, cuts[0]) && AllStraight(d, b + cuts[0], cuts[1..])
  }

  ghost predicate ReadStraight(d: Disc, b: nat, len: nat)
    requires d.unit > 0
  {
    AllStraight(d, b, Cuts(d.unit, b, len))
  }

  /** Part of a run of bytes. */
  lemma {:induction false} PartOfBytes(d: Disc, b: nat, n: nat, mod: nat, len: nat)
    requires d.unit > 0 && mod + len <= n
    ensures DiscBytes(d, b, n)[mod..mod + len] == DiscBytes(d, b + mod, len)
  {
    DiscBytesJoin(d, b, mod, n - mod);
    DiscBytesJoin(d, b + mod, len, n - mod - len);
  }

  lemma {:induction false} CutoutTrue(d: Disc, t: Trail, s: nat, k: nat, mod: nat, n: nat)
    requires d.unit > 0 && mod + n <= Product(k, d.unit) && t == Trail(0, Truth(d.list.frags, s, k))
    ensures Cutout(d, t, mod, n) == Got(0, DiscBytes(d, Product(s, d.unit) + mod, n))
  {
    TruthDelivered(d, s, k);
    PartOfBytes(d, Product(s, d.unit), Product(k, d.unit), mod, n);
  }

  lemma {:induction false} PieceTrue(d: Disc, b: nat, n: nat)
    requires d.unit > 0 && Sound(d.list) && PieceStraight(d, b, n) && Piece(d, b, n).code == 0
    ensures Piece(d, b, n) == Got(0, DiscBytes(d, b, n))
  {
    if n > 0 {
      SectorsTrue(d, n, Quot(b, d.unit), Sectors(d.unit, b, n), Rem(b, d.unit));
      QuotProduct(b, d.unit);
    }
  }

  lemma {:induction false} SectorsTrue(d: Disc, n: nat, s: nat, k: nat, mod: nat)
    requires d.unit > 0 && Sound(d.list) && mod + n <= Product(k, d.unit)
    requires Straight(d.list, s, k) && Follow(d.list, s, k).code == 0
    ensures Cutout(d, Follow(d.list, s, k), mod, n) == Got(0, DiscBytes(d, Product(s, d.unit) + mod, n))
  {
    StraightTrue(d.list, s, k);
    CutoutTrue(d, Follow(d.list, s, k), s, k, mod, n);
  }

  /** Success needs no more than a last byte that can be read; with straight searches it needs no less. */
  lemma {:induction false} PieceCode(d: Disc, b: nat, n: nat)
    requires d.unit > 0 && Sound(d.list) && NeverFails(d.list)
    ensures var g := Piece(d, b, n);
            && (g.code == 0 || g.code == -2)
            && (g.code == 0 ==> n == 0 || Legible(d, b + n - 1))
            && (PieceStraight(d, b, n) && (n == 0 || Legible(d, b + n - 1)) ==> g.code == 0)
  {
    if n > 0 {
      var s, k := Quot(b, d.unit), Sectors(d.unit, b, n);
      NoFailure(d.list, s, k);
      if Follow(d.list, s, k).code == 0 {
        SuccessReadable(d.list, s, k);
      } else if PieceStraight(d, b, n) {
        StraightRefused(d.list, s, k);
      }
    }
  }

  /** A device full of ones. */
  function Ones(): (v: nat -> byte) { b => 1 }

  function OnOnes(d: Disc): (r: Disc) { d.(device := Ones()) }

  /** A gap delivered for a mapped sector shows on a device full of ones. */
  lemma {:induction false} WrongSlice(d: Disc, b: nat, n: nat, mod: nat, places: seq<Place>, j: nat, x: nat)
    requires d.unit > 0 && d.device == Ones() && j < |places| && places[j] == Gap && b <= x < b + n
    requires mod + n <= Product(|places|, d.unit) && Quot(mod + (x - b), d.unit) == j
    requires Where(d.list.frags, Quot(x, d.unit)) != Gap
    ensures Delivered(d, places)[mod..mod + n] != DiscBytes(d, b, n)
  {
    DiscBytesAt(d, b, n, x - b);
    DeliveredAt(d, places, mod + (x - b));
    assert Delivered(d, places)[mod..mod + n][x - b] == 0;
  }

  lemma {:induction false} PieceWrong(d: Disc, b: nat, n: nat)
    requires d.unit > 0 && Sound(d.list) && !PieceStraight(d, b, n) && d.device == Ones()
    ensures Piece(d, b, n).code == 0 ==> Piece(d, b, n).bytes != DiscBytes(d, b, n)
  {
    var s, k := Quot(b, d.unit), Sectors(d.unit, b, n);
    var t := Follow(d.list, s, k);
    if t.code == 0 {
      var j := CrookedWrong(d.list, s, k);
      var x := WrongByte(d, b, n, j);
      WrongSlice(d, b, n, Rem(b, d.unit), t.places, j, x);
    }
  }

  /** A byte of the j-th sector of a piece. */
  lemma {:induction false} WrongByte(d: Disc, b: nat, n: nat, j: nat) returns (x: nat)
    requires d.unit > 0 && n > 0 && j < Sectors(d.unit, b, n)
    ensures b <= x < b + n && Quot(x, d.unit) == Quot(b, d.unit) + j && Quot(Rem(b, d.unit) + (x - b), d.unit) == j
  {
    var s := Quot(b, d.unit);
    QuotProduct(b, d.unit);
    ProductSum(s, j, d.unit);
    if j == 0 {
      x := b;
      QuotUnique(Rem(b, d.unit), d.unit, 0, Rem(b, d.unit));
    } else {
      InSector(d.unit, j, 0);
      x := Product(s + j, d.unit);
      InSector(d.unit, s + j, 0);
      ProductGap(0, j, d.unit);
      ProductMono(s + 1, s + j, d.unit);
      ProductSum(s, 1, d.unit);
      ProductIs(1, d.unit);
      QuotProduct(b + n - 1, d.unit);
      ProductMono(s + j, Quot(b + n - 1, d.unit), d.unit);
    }
  }

  /** What a read should do: bring the bytes when each of its pieces can be read, else answer -2. */
  ghost predicate Right(d: Disc, b: nat, len: nat)
    requires d.unit > 0
  {
    if Served(d, b, len) then ReadGot(d, b, len) == Got(0, DiscBytes(d, b, len)) else ReadGot(d, b, len).code == -2
  }

  /** Two pieces side by side. */
  lemma {:induction false} ThenBytes(d: Disc, b: nat, m: nat, n: nat, len: nat, x: Got, y: Got, g: Got)
    requires d.unit > 0 && (x.code == 0 ==> |x.bytes| == m) && (y.code == 0 ==> |y.bytes| == n)
    requires len == m + n && g == Then(x, y)
    ensures g == Got(0, DiscBytes(d, b, len))
       <==> x == Got(0, DiscBytes(d, b, m)) && y == Got(0, DiscBytes(d, b + m, n))
  {
    DiscBytesJoin(d, b, m, n);
    if g == Got(0, DiscBytes(d, b, len)) {
      var u, v := DiscBytes(d, b, m), DiscBytes(d, b + m, n);
      assert x.bytes == (u + v)[..m] && y.bytes == (u + v)[m..];
    }
  }

  lemma {:induction false} PiecesBytes(d: Disc, b: nat, cuts: seq<nat>)
    requires d.unit > 0 && cuts != []
    ensures var n, rest := cuts[0], cuts[1..];
            PiecesGot(d, b, cuts) == Got(0, DiscBytes(d, b, Sum(cuts))) <==>
              && Piece(d, b, n) == Got(0, DiscBytes(d, b, n))
              && PiecesGot(d, b + n, rest) == Got(0, DiscBytes(d, b + n, Sum(rest)))
  {
    var n, rest := cuts[0], cuts[1..];
    ThenBytes(d, b, n, Sum(rest), Sum(cuts), Piece(d, b, n), PiecesGot(d, b + n, rest), PiecesGot(d, b, cuts));
  }

  /** With straight searches, pieces that are read bring the bytes of the disc. */
  lemma {:induction false} StraightBytes(d: Disc, b: nat, cuts: seq<nat>)
    requires d.unit > 0 && Sound(d.list) && AllStraight(d, b, cuts) && PiecesGot(d, b, cuts).code == 0
    ensures PiecesGot(d, b, cuts) == Got(0, DiscBytes(d, b, Sum(cuts)))
    decreases |cuts|
  {
    if cuts != [] {
      PieceTrue(d, b, cuts[0]);
      StraightBytes(d, b + cuts[0], cuts[1..]);
      PiecesBytes(d, b, cuts);
    }
  }

  /** The code is that of the first piece, unless it was read. */
  lemma {:induction false} FirstCode(d: Disc, b: nat, cuts: seq<nat>)
    requires d.unit > 0 && cuts != []
    ensures PiecesGot(d, b, cuts).code
         == if Piece(d, b, cuts[0]).code != 0 then Piece(d, b, cuts[0]).code
            else PiecesGot(d, b + cuts[0], cuts[1..]).code
  {
  }

  /** Over a device that works, a read that fails answers -2. */
  lemma {:induction false} PiecesCode(d: Disc, b: nat, cuts: seq<nat>)
    requires d.unit > 0 && Sound(d.list) && NeverFails(d.list)
    ensures PiecesGot(d, b, cuts).code == 0 || PiecesGot(d, b, cuts).code == -2
    decreases |cuts|
  {
    if cuts != [] {
      var n, rest := cuts[0], cuts[1..];
      PieceCode(d, b, n);
      PiecesCode(d, b + n, rest);
      FirstCode(d, b, cuts);
    }
  }

  /** Success needs pieces that can be read. */
  lemma {:induction false} PiecesLegible(d: Disc, b: nat, cuts: seq<nat>)
    requires d.unit > 0 && Sound(d.list)
    ensures AllLegible(d, b, cuts) || PiecesGot(d, b, cuts).code != 0
    decreases |cuts|
  {
    if cuts != [] {
      var n, rest := cuts[0], cuts[1..];
      FirstCode(d, b, cuts);
      PieceSucceeds(d, b, n);
      PiecesLegible(d, b + n, rest);
    }
  }

  lemma {:induction false} PieceSucceeds(d: Disc, b: nat, n: nat)
    requires d.unit > 0 && Sound(d.list)
    ensures PieceLegible(d, b, n) || Piece(d, b, n).code != 0
  {
    if n > 0 && Piece(d, b, n).code == 0 {
      SuccessReadable(d.list, Quot(b, d.unit), Sectors(d.unit, b, n));
    }
  }

  /** With straight searches it needs no more. */
  lemma {:induction false} PiecesServed(d: Disc, b: nat, cuts: seq<nat>)
    requires d.unit > 0 && Sound(d.list) && NeverFails(d.list) && AllStraight(d, b, cuts) && AllLegible(d, b, cuts)
    ensures PiecesGot(d, b, cuts).code == 0
    decreases |cuts|
  {
    if cuts != [] {
      var n, rest := cuts[0], cuts[1..];
      PieceCode(d, b, n);
      PiecesServed(d, b + n, rest);
      FirstCode(d, b, cuts);
    }
  }

  /** A read that succeeds brings the bytes of the disc, whatever the device fails, when its searches are straight. */
  lemma {:induction false} StraightRead(d: Disc, b: nat, len: nat)
    requires d.unit > 0 && Sound(d.list) && ReadStraight(d, b, len) && ReadGot(d, b, len).code == 0
    ensures ReadGot(d, b, len) == Got(0, DiscBytes(d, b, len))
  {
    StraightBytes(d, b, Cuts(d.unit, b, len));
  }

  lemma {:induction false} NotMisled(d: Disc, b: nat, len: nat)
    requires d.unit > 0 && Sound(d.list) && NeverFails(d.list) && (Served(d, b, len) ==> ReadStraight(d, b, len))
    ensures Right(d, b, len)
  {
    PiecesCode(d, b, Cuts(d.unit, b, len));
    PiecesLegible(d, b, Cuts(d.unit, b, len));
    if Served(d, b, len) {
      PiecesServed(d, b, Cuts(d.unit, b, len));
      StraightRead(d, b, len);
    }
  }

  /** The device does not say which searches are made, nor what can be read. */
  lemma {:induction false} AnyDevice(d: Disc, v: nat -> byte, b: nat, cuts: seq<nat>)
    requires d.unit > 0
    ensures AllLegible(d.(device := v), b, cuts) == AllLegible(d, b, cuts)
    ensures AllStraight(d.(device := v), b, cuts) == AllStraight(d, b, cuts)
    decreases |cuts|
  {
    if cuts != [] {
      AnyDevice(d, v, b + cuts[0], cuts[1..]);
    }
  }

  ghost predicate RightOn(d: Disc, b: nat, len: nat, v: nat -> byte)
    requires d.unit > 0
  {
    Right(d.(device := v), b, len)
  }

  /**
   * Over a device that works, whatever its bytes, a read does what it should exactly when none of its searches is
   * misled or one of its pieces cannot be read.
   */
  lemma {:induction false} ReadExactly(d: Disc, b: nat, len: nat)
    requires d.unit > 0 && Sound(d.list) && NeverFails(d.list)
    ensures (forall v: nat -> byte :: RightOn(d, b, len, v)) <==> (Served(d, b, len) ==> ReadStraight(d, b, len))
  {
    if Served(d, b, len) && !ReadStraight(d, b, len) {
      AnyDevice(d, Ones(), b, Cuts(d.unit, b, len));
      CrookedPieces(OnOnes(d), b, Cuts(d.unit, b, len));
      assert !RightOn(d, b, len, Ones());
    } else {
      forall v: nat -> byte
        ensures RightOn(d, b, len, v)
      {
        AnyDevice(d, v, b, Cuts(d.unit, b, len));
        NotMisled(d.(device := v), b, len);
      }
    }
  }

  lemma {:induction false} CrookedPieces(d: Disc, b: nat, cuts: seq<nat>)
    requires d.unit > 0 && Sound(d.list) && !AllStraight(d, b, cuts) && d.device == Ones()
    ensures PiecesGot(d, b, cuts) != Got(0, DiscBytes(d, b, Sum(cuts)))
    decreases |cuts|
  {
    PiecesBytes(d, b, cuts);
    if PieceStraight(d, b, cuts[0]) {
      CrookedPieces(d, b + cuts[0], cuts[1..]);
    } else {
      PieceWrong(d, b, cuts[0]);
    }
  }
}
