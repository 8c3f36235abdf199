/** The fragment list: which sectors of the virtual disc are mapped, and where. */
module FragList {
  import opened Bytes
  import opened Arithmetic

  datatype Fragment = Fragment(offset: nat, sector: nat, count: nat)

  const MAX_INDEX := 640
  const CHUNK := 32768

  function End(f: Fragment): (e: nat) { f.offset + f.count }

  /** In order, apart, and within 32 bits. */
  predicate Sorted(f: seq<Fragment>) {
    && (forall i, j :: 0 <= i < j < |f| ==> End(f[i]) <= f[j].offset)
    && forall i :: 0 <= i < |f| ==> End(f[i]) < U32
  }

  predicate Covers(f: Fragment, s: nat) { f.offset <= s < End(f) }

  datatype Place = Device(sector: nat) | Gap

  /** Where sector s of the disc lives: the first fragment that covers it, or nowhere. */
  function Where(f: seq<Fragment>, s: nat): (p: Place) {
    if f == [] then Gap
    else if Covers(f[0], s) then Device(f[0].sector + (s - f[0].offset))
    else Where(f[1..], s)
  }

  lemma {:induction false} WhereCovered(f: seq<Fragment>, i: nat, s: nat)
    requires i < |f| && Covers(f[i], s) && forall j :: 0 <= j < i ==> !Covers(f[j], s)
    ensures Where(f, s) == Device(f[i].sector + (s - f[i].offset))
  {
    if i > 0 {
      WhereCovered(f[1..], i - 1, s);
    }
  }

  lemma {:induction false} WhereGap(f: seq<Fragment>, s: nat)
    requires forall j :: 0 <= j < |f| ==> !Covers(f[j], s)
    ensures Where(f, s) == Gap
  {
    if f != [] {
      WhereGap(f[1..], s);
    }
  }

  /** The answer of a search: zeros up to offset, then count sectors on the device. */
  datatype Hit = Hit(offset: nat, sector: nat, count: nat) | OutOfRange

  function Least(a: nat, b: nat): (r: nat) { if a < b then a else b }

  predicate Stops(f: Fragment, offset: nat, count: nat) {
    Covers(f, offset) || offset < f.offset < offset + count
  }

  /** The fragment maps a sector of the request. */
  predicate Bears(f: Fragment, offset: nat, count: nat) { f.count > 0 && Stops(f, offset, count) }

  /** A scan of the list from entry i on. */
  function Scan(f: seq<Fragment>, size: nat, i: nat, offset: nat, count: nat): (h: Hit)
    requires i <= |f|
    decreases |f| - i
  {
    if i == |f| then
      if offset + count > size then OutOfRange else Hit(offset + count, 0, 0)
    else if Covers(f[i], offset) then
      Hit(offset, f[i].sector + (offset - f[i].offset), Least(f[i].count - (offset - f[i].offset), count))
    else if offset < f[i].offset < offset + count then
      Hit(f[i].offset, f[i].sector, Least(f[i].count, count - (f[i].offset - offset)))
    else Scan(f, size, i + 1, offset, count)
  }

  /** A start behind fragments that end before the offset changes nothing. */
  lemma {:induction false} ScanSkips(f: seq<Fragment>, size: nat, i: nat, offset: nat, count: nat)
    requires i <= |f| && forall j :: 0 <= j < i ==> End(f[j]) <= offset
    ensures Scan(f, size, i, offset, count) == Scan(f, size, 0, offset, count)
  {
    if i > 0 {
      ScanSkips(f, size, i - 1, offset, count);
      assert End(f[i - 1]) <= offset;
    }
  }

  /** A scan that starts behind the fragment it should stop at finds something further on. */
  lemma {:induction false} ScanOvershoots(f: seq<Fragment>, size: nat, i: nat, k: nat, offset: nat, count: nat)
    requires Sorted(f) && i < k <= |f| && f[i].count > 0 && count > 0 && Stops(f[i], offset, count)
    ensures var h := Scan(f, size, k, offset, count);
            h.Hit? ==> h.offset > offset && h.offset > f[i].offset
    decreases |f| - k
  {
    if k < |f| {
      assert End(f[i]) <= f[k].offset;
      ScanOvershoots(f, size, i, k + 1, offset, count);
    }
  }

  lemma {:induction false} ScanPasses(f: seq<Fragment>, size: nat, k: nat, offset: nat, count: nat)
    requires k <= |f| && forall j :: 0 <= j < k ==> !Stops(f[j], offset, count)
    ensures Scan(f, size, 0, offset, count) == Scan(f, size, k, offset, count)
  {
    if k > 0 {
      ScanPasses(f, size, k - 1, offset, count);
    }
  }

  lemma {:induction false} FirstStop(f: seq<Fragment>, k: nat, offset: nat, count: nat) returns (i: nat)
    requires k <= |f| && exists j :: 0 <= j < k && Stops(f[j], offset, count)
    ensures i < k && Stops(f[i], offset, count) && forall j :: 0 <= j < i ==> !Stops(f[j], offset, count)
  {
    i := 0;
    while !Stops(f[i], offset, count)
      invariant i < k && forall j :: 0 <= j < i ==> !Stops(f[j], offset, count)
      decreases k - i
    {
      i := i + 1;
    }
  }

  /** A search that starts at entry k is right exactly when no fragment it skips bears on the request. */
  lemma {:induction false} StartExactly(f: seq<Fragment>, size: nat, k: nat, offset: nat, count: nat)
    requires Sorted(f) && k <= |f| && count > 0 && forall i :: 0 <= i < |f| ==> f[i].count > 0
    ensures Scan(f, size, k, offset, count) == Scan(f, size, 0, offset, count)
       <==> forall j :: 0 <= j < k ==> !Stops(f[j], offset, count)
  {
    if j :| 0 <= j < k && Stops(f[j], offset, count) {
      var i := FirstStop(f, k, offset, count);
      ScanPasses(f, size, i, offset, count);
      ScanOvershoots(f, size, i, k, offset, count);
    } else {
      ScanPasses(f, size, k, offset, count);
    }
  }

  /** So whatever value above 0 lies behind the index, some list and some sector of that chunk read wrong. */
  lemma {:induction false} StrayMisses(stray: nat, s: nat)
    requires stray > 0 && s / CHUNK == MAX_INDEX
    ensures var f := [Fragment(s, 7, 1)];
            && Sorted(f) && Scan(f, s + 1, Least(stray, |f|), s, 1) == Hit(s + 1, 0, 0)
            && Scan(f, s + 1, 0, s, 1) == Hit(s, 7, 1)
  {
    assert Least(stray, 1) == 1;
  }

  /** Sector s + k is a gap. */
  ghost predicate GapAt(f: seq<Fragment>, s: nat, k: nat) { Where(f, s + k) == Gap }

  /** Sector s + k is sector at + k of the device. */
  ghost predicate DeviceAt(f: seq<Fragment>, s: nat, at: nat, k: nat) { Where(f, s + k) == Device(at + k) }

  ghost predicate GapRun(f: seq<Fragment>, s: nat, count: nat) {
    forall k: nat {:trigger GapAt(f, s, k)} :: k < count ==> GapAt(f, s, k)
  }

  ghost predicate DeviceRun(f: seq<Fragment>, s: nat, count: nat, at: nat) {
    forall k: nat {:trigger DeviceAt(f, s, at, k)} :: k < count ==> DeviceAt(f, s, at, k)
  }

  /** What a hit says of the disc. */
  ghost predicate Tells(f: seq<Fragment>, h: Hit, offset: nat, count: nat)
    requires h.Hit?
  {
    && offset <= h.offset <= h.offset + h.count <= offset + count
    && GapRun(f, offset, h.offset - offset)
    && DeviceRun(f, h.offset, h.count, h.sector)
    && (count > 0 ==> h.offset + h.count > offset)
  }

  lemma {:induction false} AtFragment(f: seq<Fragment>, i: nat, s: nat)
    requires Sorted(f) && i < |f| && Covers(f[i], s)
    ensures Where(f, s) == Device(f[i].sector + (s - f[i].offset))
  {
    WhereCovered(f, i, s);
  }

  /** Nothing is mapped between the offset and the fragment the scan stopped at. */
  lemma {:induction false} BeforeFragment(f: seq<Fragment>, i: nat, offset: nat, count: nat, s: nat)
    requires Sorted(f) && i <= |f| && offset <= s < offset + count && (i < |f| ==> s < f[i].offset)
    requires forall j :: 0 <= j < i ==> !Bears(f[j], offset, count)
    ensures Where(f, s) == Gap
  {
    forall j | 0 <= j < |f|
      ensures !Covers(f[j], s)
    {
      if i < j {
        assert End(f[i]) <= f[j].offset;
      } else if j < i {
        assert !Bears(f[j], offset, count);
      }
    }
    WhereGap(f, s);
  }

  lemma {:induction false} ScanTells(f: seq<Fragment>, size: nat, i: nat, offset: nat, count: nat)
    requires Sorted(f) && i <= |f| && forall j :: 0 <= j < i ==> !Bears(f[j], offset, count)
    ensures var h := Scan(f, size, i, offset, count);
            if h.Hit? then Tells(f, h, offset, count)
            else offset + count > size && GapRun(f, offset, count)
    ensures var h := Scan(f, size, i, offset, count);
            h.Hit? && count > 0 && h.count == 0 && h.offset == offset + count ==> offset + count <= size
    decreases |f| - i
  {
    var h := Scan(f, size, i, offset, count);
    if i == |f| {
      forall k: nat {:trigger GapAt(f, offset, k)} | k < count
        ensures GapAt(f, offset, k)
      {
        BeforeFragment(f, i, offset, count, offset + k);
      }
    } else if Stops(f[i], offset, count) {
      forall k: nat {:trigger GapAt(f, offset, k)} | k < h.offset - offset
        ensures GapAt(f, offset, k)
      {
        BeforeFragment(f, i, offset, count, offset + k);
      }
      forall k: nat {:trigger DeviceAt(f, h.offset, h.sector, k)} | k < h.count
        ensures DeviceAt(f, h.offset, h.sector, k)
      {
        AtFragment(f, i, h.offset + k);
      }
    } else {
      ScanTells(f, size, i + 1, offset, count);
    }
  }

  /** Wherever it starts, a search stays inside the request and moves on. */
  predicate Inside(h: Hit, offset: nat, count: nat) {
    h.Hit? ==> offset <= h.offset <= h.offset + h.count <= offset + count && (count > 0 ==> h.offset + h.count > offset)
  }

  lemma {:induction false} ScanInside(f: seq<Fragment>, size: nat, i: nat, offset: nat, count: nat)
    requires i <= |f|
    ensures Inside(Scan(f, size, i, offset, count), offset, count)
    decreases |f| - i
  {
    if i < |f| && !Stops(f[i], offset, count) {
      ScanInside(f, size, i + 1, offset, count);
    }
  }

  /** The least number of bits, at least one, that hold a value. */
  function Bits(v: nat): (n: nat) {
    if v < 2 then 1 else 1 + Bits(v / 2)
  }

  lemma {:induction false} BitsAreLeast(v: nat)
    ensures v < Power(Bits(v)) && (Bits(v) > 1 ==> Power(Bits(v) - 1) <= v)
  {
    if v >= 2 {
      BitsAreLeast(v / 2);
    }
  }

  /** A sector size that is a power of two needs as many bits as its exponent. */
  lemma {:induction false} BitsOfSize(k: nat)
    requires k > 0
    ensures Bits(Power(k) - 1) == k
  {
    if k > 1 {
      BitsOfSize(k - 1);
      assert (Power(k) - 1) / 2 == Power(k - 1) - 1;
      assert Power(k - 1) >= 2 by { assert Power(k - 1) == 2 * Power(k - 2); }
    }
  }

  /** __Frag_GetNumBits. */
  method GetNumBits(value: nat) returns (nb: nat)
    ensures nb == Bits(value)
    ensures value < Power(nb) && (nb > 1 ==> Power(nb - 1) <= value)
  {
    BitsAreLeast(value);
    var v: nat := value / 2;
    nb := 1;
    while v > 0
      invariant Bits(value) == if v == 0 then nb else nb + Bits(v)
    {
      v := v / 2;
      nb := nb + 1;
    }
  }
}
