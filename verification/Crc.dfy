/**
 * A register fed with words through a map, in the abstract: what follows from
 * the map being additive and injective alone.
 */
module LinearRegister {

  ghost function Iter<T>(f: T -> T, x: T, n: nat): (r: T)
    decreases n
  {
    if n == 0 then x else Iter(f, f(x), n - 1)
  }

  /** Each word is added to the register, then the map is applied eight times. */
  ghost function Feed<T>(f: T -> T, add: (T, T) -> T, x: T, ws: seq<T>): (r: T)
    decreases |ws|
  {
    if ws == [] then x else Feed(f, add, Iter(f, add(x, ws[0]), 8), ws[1..])
  }

  ghost predicate Injective<T(!new)>(f: T -> T) {
    forall x, y :: f(x) == f(y) ==> x == y
  }

  ghost predicate Distributes<T>(f: T -> T, add: (T, T) -> T, x: T, y: T) {
    f(add(x, y)) == add(f(x), f(y))
  }

  ghost predicate Additive<T(!new)>(f: T -> T, add: (T, T) -> T) {
    forall x, y {:trigger Distributes(f, add, x, y)} :: Distributes(f, add, x, y)
  }

  ghost predicate Cancels<T(!new)>(add: (T, T) -> T) {
    && (forall x, y, z :: add(x, z) == add(y, z) ==> x == y)
    && (forall x, y, z :: add(x, y) == add(x, z) ==> y == z)
  }

  ghost predicate Reassociates<T>(add: (T, T) -> T, x: T, y: T, z: T) {
    add(add(x, y), z) == add(x, add(y, z))
  }

  ghost predicate Associative<T(!new)>(add: (T, T) -> T) {
    forall x, y, z {:trigger Reassociates(add, x, y, z)} :: Reassociates(add, x, y, z)
  }

  lemma {:induction false} IterInjective<T(!new)>(f: T -> T, x: T, y: T, n: nat)
    requires Injective(f) && Iter(f, x, n) == Iter(f, y, n)
    ensures x == y
    decreases n
  {
    if n > 0 {
      IterInjective(f, f(x), f(y), n - 1);
    }
  }

  lemma {:induction false} IterAdditive<T(!new)>(f: T -> T, add: (T, T) -> T, x: T, y: T, n: nat)
    requires Additive(f, add)
    ensures Iter(f, add(x, y), n) == add(Iter(f, x, n), Iter(f, y, n))
    decreases n
  {
    if n > 0 {
      assert Distributes(f, add, x, y);
      IterAdditive(f, add, f(x), f(y), n - 1);
    }
  }

  lemma {:induction false} IterSum<T>(f: T -> T, x: T, m: nat, n: nat)
    ensures Iter(f, Iter(f, x, m), n) == Iter(f, x, m + n)
    decreases m
  {
    if m > 0 {
      IterSum(f, f(x), m - 1, n);
    }
  }

  lemma {:induction false} FeedSplit<T>(f: T -> T, add: (T, T) -> T, x: T, a: seq<T>, b: seq<T>)
    ensures Feed(f, add, x, a + b) == Feed(f, add, Feed(f, add, x, a), b)
    decreases |a|
  {
    if a == [] {
      assert a + b == b;
    } else {
      assert (a + b)[1..] == a[1..] + b;
      FeedSplit(f, add, Iter(f, add(x, a[0]), 8), a[1..], b);
    }
  }

  lemma {:induction false} FeedInjective<T(!new)>(f: T -> T, add: (T, T) -> T, x: T, y: T, ws: seq<T>)
    requires Injective(f) && Cancels(add) && Feed(f, add, x, ws) == Feed(f, add, y, ws)
    ensures x == y
    decreases |ws|
  {
    if ws != [] {
      FeedInjective(f, add, Iter(f, add(x, ws[0]), 8), Iter(f, add(y, ws[0]), 8), ws[1..]);
      IterInjective(f, add(x, ws[0]), add(y, ws[0]), 8);
    }
  }

  /** If `f` walks a chain back to its start, so do as many rounds as the chain is long. */
  lemma {:induction false} IterChain<T>(f: T -> T, chain: seq<T>, n: nat)
    requires n < |chain| && forall i :: 0 < i < |chain| ==> f(chain[i]) == chain[i - 1]
    ensures Iter(f, chain[n], n) == chain[0]
    decreases n
  {
    if n > 0 {
      IterChain(f, chain, n - 1);
    }
  }

  /** Bytes joined into one value, the first one outermost. */
  ghost function Gather<B, T>(join: (B, T) -> T, zero: T, w: seq<B>): (v: T)
    decreases |w|
  {
    if w == [] then zero else join(w[0], Gather(join, zero, w[1..]))
  }

  /** `fits(v, n)`: the value can stand for `n` bytes; at most three bytes leave room for one more. */
  ghost predicate LeavesRoom<B, T>(join: (B, T) -> T, fits: (T, nat) -> bool, x: B, u: T, n: nat) {
    fits(u, n) && n <= 2 ==> fits(join(x, u), n + 1)
  }

  ghost predicate Roomy<B(!new), T(!new)>(join: (B, T) -> T, zero: T, fits: (T, nat) -> bool) {
    && fits(zero, 0)
    && (forall x, u, n: nat {:trigger LeavesRoom(join, fits, x, u, n)} :: LeavesRoom(join, fits, x, u, n))
  }

  ghost predicate Separable<B(!new), T(!new)>(join: (B, T) -> T, fits: (T, nat) -> bool) {
    forall x, y, u, v, n: nat :: fits(u, n) && fits(v, n) && n <= 3 && join(x, u) == join(y, v) ==> x == y && u == v
  }

  lemma {:induction false} GatherFits<B(!new), T(!new)>(join: (B, T) -> T, zero: T, fits: (T, nat) -> bool, w: seq<B>)
    requires Roomy(join, zero, fits) && |w| <= 3
    ensures fits(Gather(join, zero, w), |w|)
    decreases |w|
  {
    if w != [] {
      GatherFits(join, zero, fits, w[1..]);
      assert LeavesRoom(join, fits, w[0], Gather(join, zero, w[1..]), |w| - 1);
    }
  }

  lemma {:induction false} GatherInjective<B(!new), T(!new)>(join: (B, T) -> T, zero: T, fits: (T, nat) -> bool,
                                             a: seq<B>, b: seq<B>)
    requires Roomy(join, zero, fits) && Separable(join, fits)
    requires |a| == |b| <= 4 && Gather(join, zero, a) == Gather(join, zero, b)
    ensures a == b
    decreases |a|
  {
    if a != [] {
      GatherFits(join, zero, fits, a[1..]);
      GatherFits(join, zero, fits, b[1..]);
      GatherInjective(join, zero, fits, a[1..], b[1..]);
      assert a == [a[0]] + a[1..] && b == [b[0]] + b[1..];
    }
  }

  /** `up` moves a value out of the way of one word; eight rounds move it back. */
  ghost predicate Returns<T>(f: T -> T, up: T -> T, fits: (T, nat) -> bool, v: T, n: nat) {
    fits(v, n) && n <= 3 ==> Iter(f, up(v), 8) == v
  }

  ghost predicate Restores<T(!new)>(f: T -> T, up: T -> T, fits: (T, nat) -> bool) {
    forall v, n: nat {:trigger Returns(f, up, fits, v, n)} :: Returns(f, up, fits, v, n)
  }

  /** A value added after eight rounds could have been added, moved up, before them. */
  lemma {:induction false} FeedStep<T(!new)>(f: T -> T, add: (T, T) -> T, x: T, w: T, up: T, rest: T, n: nat)
    requires Additive(f, add) && Associative(add) && Iter(f, up, 8) == rest
    ensures Iter(f, add(Iter(f, add(x, w), 8), rest), n) == Iter(f, add(x, add(w, up)), 8 + n)
  {
    IterAdditive(f, add, add(x, w), up, 8);
    assert Reassociates(add, x, w, up);
    IterSum(f, add(x, add(w, up)), 8, n);
  }

  /** Up to four bytes enter the register as if their joined value were added at once. */
  lemma {:induction false} FeedGathered<B(!new), T(!new)>(
    f: T -> T, add: (T, T) -> T, wide: B -> T, up: T -> T, join: (B, T) -> T, zero: T, fits: (T, nat) -> bool,
    x: T, w: seq<B>, ws: seq<T>)
    requires Additive(f, add) && Associative(add) && Roomy(join, zero, fits) && Restores(f, up, fits)
    requires forall b, v :: join(b, v) == add(wide(b), up(v))
    requires forall z :: add(z, zero) == z
    requires |w| == |ws| <= 4 && forall i :: 0 <= i < |w| ==> ws[i] == wide(w[i])
    ensures Feed(f, add, x, ws) == Iter(f, add(x, Gather(join, zero, w)), 8 * |w|)
    decreases |w|
  {
    if w != [] {
      var y := Iter(f, add(x, ws[0]), 8);
      var rest := Gather(join, zero, w[1..]);
      FeedGathered(f, add, wide, up, join, zero, fits, y, w[1..], ws[1..]);
      GatherFits(join, zero, fits, w[1..]);
      assert Returns(f, up, fits, rest, |w| - 1);
      assert Gather(join, zero, w) == add(ws[0], up(rest));
      FeedStep(f, add, x, ws[0], up(rest), rest, 8 * |w[1..]|);
      assert Feed(f, add, x, ws) == Feed(f, add, y, ws[1..]);
      assert 8 + 8 * |w[1..]| == 8 * |w|;
    }
  }
}

/**
 * ra_crc32: the bitwise CRC-32 of section 8 of RFC 1952, and why a burst of
 * errors inside four consecutive bytes always changes it.
 */
module Crc {
  import opened LinearRegister

  const POLYNOMIAL: bv32 := 0xEDB8_8320

  /** One round of the inner loop. */
  function BitStep(crc: bv32): (r: bv32) {
    if crc & 1 == 1 then (crc >> 1) ^ POLYNOMIAL else crc >> 1
  }

  function Xor(x: bv32, y: bv32): (r: bv32) { x ^ y }

  function Wide(b: bv8): (w: bv32) { b as bv32 }

  function Up(v: bv32): (w: bv32) { v << 8 }

  function Widen(p: seq<bv8>): (ws: seq<bv32>)
    ensures |ws| == |p|
    ensures forall i :: 0 <= i < |p| ==> ws[i] == Wide(p[i])
  {
    seq(|p|, i requires 0 <= i < |p| => Wide(p[i]))
  }

  ghost function Register(crc: bv32, p: seq<bv8>): (r: bv32) {
    Feed(BitStep, Xor, crc, Widen(p))
  }

  ghost function Checksum(p: seq<bv8>): (r: bv32) {
    !Register(0xFFFF_FFFF, p)
  }

  /** The checksum of no bytes, and of the letter a. */
  lemma {:induction false} KnownChecksums()
    ensures Checksum([]) == 0 && Checksum([0x61]) == 0xE8B7BE43
  {
    OneByte(0x61);
    LetterRounds();
    Complements();
  }

  lemma {:induction false} Complements()
    ensures !(0xFFFF_FFFF as bv32) == 0 && !(0x1748_41BC as bv32) == 0xE8B7BE43
  {
  }

  lemma {:induction false} OneByte(b: bv8)
    ensures Register(0xFFFF_FFFF, []) == 0xFFFF_FFFF
    ensures Register(0xFFFF_FFFF, [b]) == Iter(BitStep, Xor(0xFFFF_FFFF, Wide(b)), 8)
  {
    var ws := Widen([b]);
    assert Widen([]) == [] && ws[1..] == [];
    assert Register(0xFFFF_FFFF, [b]) == Feed(BitStep, Xor, Iter(BitStep, Xor(0xFFFF_FFFF, ws[0]), 8), ws[1..]);
  }

  lemma {:induction false} LetterRounds()
    ensures Iter(BitStep, Xor(0xFFFF_FFFF, Wide(0x61)), 8) == 0x1748_41BC
  {
    var chain: seq<bv32> := [0x1748_41BC, 0x2E90_8378, 0x5D21_06F0,
                             0xBA42_0DE0, 0xAFF5_1D81, 0x849B_3D43,
                             0xD247_7CC7, 0x7FFF_FFCF, 0xFFFF_FF9E];
    LetterStarts();
    LetterSteps();
    IterChain(BitStep, chain, 8);
  }

  lemma {:induction false} LetterSteps()
    ensures BitStep(0xFFFF_FF9E) == 0x7FFF_FFCF
    ensures BitStep(0x7FFF_FFCF) == 0xD247_7CC7
    ensures BitStep(0xD247_7CC7) == 0x849B_3D43
    ensures BitStep(0x849B_3D43) == 0xAFF5_1D81
    ensures BitStep(0xAFF5_1D81) == 0xBA42_0DE0
    ensures BitStep(0xBA42_0DE0) == 0x5D21_06F0
    ensures BitStep(0x5D21_06F0) == 0x2E90_8378
    ensures BitStep(0x2E90_8378) == 0x1748_41BC
  {
  }

  lemma {:induction false} LetterStarts()
    ensures Xor(0xFFFF_FFFF, Wide(0x61)) == 0xFFFF_FF9E
  {
  }

  /** The branch-free form of the source is the round. */
  lemma {:induction false} MaskedStep(crc: bv32)
    ensures (crc >> 1) ^ (0xEDB8_8320 & (0 - (crc & 1))) == BitStep(crc)
  {
    if crc & 1 == 1 {
      assert 0 - (crc & 1) == 0xFFFF_FFFF;
    } else {
      assert crc & 1 == 0;
    }
  }

  /** ra_crc32. */
  method Crc32(p: seq<bv8>) returns (crc: bv32)
    ensures crc == Checksum(p)
  {
    crc := 0xFFFF_FFFF;
    var i := 0;
    assert p[0..] == p;
    while i < |p|
      invariant 0 <= i <= |p|
      invariant Register(crc, p[i..]) == Register(0xFFFF_FFFF, p)
    {
      ghost var before := crc;
      crc := Xor(crc, Wide(p[i]));
      var b := 0;
      while b < 8
        invariant 0 <= b <= 8
        invariant Iter(BitStep, crc, 8 - b) == Iter(BitStep, Xor(before, Wide(p[i])), 8)
      {
        MaskedStep(crc);
        crc := (crc >> 1) ^ (0xEDB8_8320 & (0 - (crc & 1)));
        b := b + 1;
      }
      RegisterStep(before, p, i);
      i := i + 1;
    }
    crc := !crc;
  }

  lemma {:induction false} RegisterStep(crc: bv32, p: seq<bv8>, i: nat)
    requires i < |p|
    ensures Register(crc, p[i..]) == Register(Iter(BitStep, Xor(crc, Wide(p[i])), 8), p[i + 1..])
  {
    assert Widen(p[i..])[1..] == Widen(p[i + 1..]);
  }

  // ---------------------------------------------------------------- the round is additive and injective

  lemma {:induction false} XorShift(x: bv32, y: bv32)
    ensures (x ^ y) >> 1 == (x >> 1) ^ (y >> 1)
  {
  }

  lemma {:induction false} XorLow(x: bv32, y: bv32)
    ensures (x ^ y) & 1 == 1 <==> ((x & 1 == 1) != (y & 1 == 1))
  {
  }

  lemma {:induction false} XorPairs(a: bv32, b: bv32, p: bv32)
    ensures (a ^ p) ^ (b ^ p) == a ^ b
    ensures (a ^ p) ^ b == (a ^ b) ^ p
    ensures a ^ (b ^ p) == (a ^ b) ^ p
  {
  }

  lemma {:induction false} BitStepSplits(x: bv32, y: bv32)
    ensures BitStep(x ^ y) == BitStep(x) ^ BitStep(y)
  {
    XorShift(x, y);
    XorLow(x, y);
    XorPairs(x >> 1, y >> 1, POLYNOMIAL);
  }

  lemma {:induction false} XorIs(x: bv32, y: bv32)
    ensures Xor(x, y) == x ^ y
  {
  }

  lemma {:induction false} BitStepCongruent(x: bv32, y: bv32)
    requires x == y
    ensures BitStep(x) == BitStep(y)
  {
  }

  /** A round of a sum is the sum of the rounds. */
  lemma {:induction false} BitStepAdditive(x: bv32, y: bv32)
    ensures BitStep(Xor(x, y)) == Xor(BitStep(x), BitStep(y))
  {
    BitStepSplits(x, y);
    XorIs(x, y);
    XorIs(BitStep(x), BitStep(y));
    BitStepCongruent(Xor(x, y), x ^ y);
  }

  /** The polynomial has its top bit set, so a round can be undone. */
  lemma {:induction false} BitStepInjective(x: bv32, y: bv32)
    requires BitStep(x) == BitStep(y)
    ensures x == y
  {
  }

  lemma {:induction false} XorRight(x: bv32, y: bv32, z: bv32)
    ensures Xor(x, z) == Xor(y, z) ==> x == y
  {
  }

  lemma {:induction false} XorLeft(x: bv32, y: bv32, z: bv32)
    ensures Xor(x, y) == Xor(x, z) ==> y == z
  {
  }

  lemma {:induction false} XorAssociative(x: bv32, y: bv32, z: bv32)
    ensures Xor(Xor(x, y), z) == Xor(x, Xor(y, z))
  {
  }

  lemma {:induction false} AdditiveLaw()
    ensures Additive(BitStep, Xor)
  {
    forall x: bv32, y: bv32
      ensures Distributes(BitStep, Xor, x, y)
    {
      BitStepAdditive(x, y);
    }
  }

  lemma {:induction false} InjectiveLaw()
    ensures Injective(BitStep)
  {
    forall x: bv32, y: bv32 | BitStep(x) == BitStep(y)
      ensures x == y
    {
      BitStepInjective(x, y);
    }
  }

  lemma {:induction false} XorLaws()
    ensures Cancels(Xor) && Associative(Xor)
  {
    forall x: bv32, y: bv32, z: bv32
      ensures Xor(x, z) == Xor(y, z) ==> x == y
    {
      XorRight(x, y, z);
    }
    forall x: bv32, y: bv32, z: bv32
      ensures Xor(x, y) == Xor(x, z) ==> y == z
    {
      XorLeft(x, y, z);
    }
    forall x: bv32, y: bv32, z: bv32
      ensures Reassociates(Xor, x, y, z)
    {
      XorAssociative(x, y, z);
    }
  }

  // ---------------------------------------------------------------- bursts

  /** A byte below a value that was moved up by one byte. */
  function Join(b: bv8, v: bv32): (r: bv32) { Xor(Wide(b), Up(v)) }

  function Fits(v: bv32, n: nat): (r: bool) {
    if n == 0 then v == 0 else if n == 1 then v <= 0xFF else if n == 2 then v <= 0xFFFF else v <= 0x00FF_FFFF
  }

  lemma {:induction false} JoinFits(b: bv8, v: bv32, n: nat)
    requires Fits(v, n) && n <= 2
    ensures Fits(Join(b, v), n + 1)
  {
  }

  lemma {:induction false} LowByte(x: bv8, u: bv32)
    requires u <= 0x00FF_FFFF
    ensures Join(x, u) & 0xFF == Wide(x) && Join(x, u) >> 8 == u
  {
  }

  lemma {:induction false} WideInjective(x: bv8, y: bv8)
    requires Wide(x) == Wide(y)
    ensures x == y
  {
  }

  lemma {:induction false} RoomyLaw()
    ensures Roomy(Join, 0, Fits)
  {
    forall x: bv8, u: bv32, n: nat
      ensures LeavesRoom(Join, Fits, x, u, n)
    {
      if Fits(u, n) && n <= 2 {
        JoinFits(x, u, n);
      }
    }
  }

  lemma {:induction false} FitsBound(v: bv32, n: nat)
    requires Fits(v, n) && n <= 3
    ensures v <= 0x00FF_FFFF
  {
  }

  lemma {:induction false} SeparableLaw()
    ensures Separable(Join, Fits)
  {
    forall x: bv8, y: bv8, u: bv32, v: bv32, n: nat | Fits(u, n) && Fits(v, n) && n <= 3 && Join(x, u) == Join(y, v)
      ensures x == y && u == v
    {
      FitsBound(u, n);
      FitsBound(v, n);
      LowByte(x, u);
      LowByte(y, v);
      WideInjective(x, y);
    }
  }

  lemma {:induction false} Back1(v: bv32)
    requires v <= 0x00FF_FFFF
    ensures BitStep(v << 1) == v
  {
  }

  lemma {:induction false} Back2(v: bv32)
    requires v <= 0x00FF_FFFF
    ensures BitStep(v << 2) == v << 1
  {
  }

  lemma {:induction false} Back3(v: bv32)
    requires v <= 0x00FF_FFFF
    ensures BitStep(v << 3) == v << 2
  {
  }

  lemma {:induction false} Back4(v: bv32)
    requires v <= 0x00FF_FFFF
    ensures BitStep(v << 4) == v << 3
  {
  }

  lemma {:induction false} Back5(v: bv32)
    requires v <= 0x00FF_FFFF
    ensures BitStep(v << 5) == v << 4
  {
  }

  lemma {:induction false} Back6(v: bv32)
    requires v <= 0x00FF_FFFF
    ensures BitStep(v << 6) == v << 5
  {
  }

  lemma {:induction false} Back7(v: bv32)
    requires v <= 0x00FF_FFFF
    ensures BitStep(v << 7) == v << 6
  {
  }

  lemma {:induction false} Back8(v: bv32)
    requires v <= 0x00FF_FFFF
    ensures BitStep(v << 8) == v << 7
  {
  }

  /** Eight rounds move a value above the low byte down by one byte. */
  lemma {:induction false} ShiftsDown(v: bv32)
    requires v <= 0x00FF_FFFF
    ensures Iter(BitStep, Up(v), 8) == v
  {
    var chain := [v, v << 1, v << 2, v << 3, v << 4, v << 5, v << 6, v << 7, v << 8];
    Back1(v);
    Back2(v);
    Back3(v);
    Back4(v);
    Back5(v);
    Back6(v);
    Back7(v);
    Back8(v);
    IterChain(BitStep, chain, 8);
  }

  lemma {:induction false} RestoresLaw()
    ensures Restores(BitStep, Up, Fits)
  {
    forall v: bv32, n: nat
      ensures Returns(BitStep, Up, Fits, v, n)
    {
      if Fits(v, n) && n <= 3 {
        FitsBound(v, n);
        ShiftsDown(v);
      }
    }
  }

  ghost function Pack(w: seq<bv8>): (v: bv32) { Gather(Join, 0, w) }

  lemma {:induction false} XorZero(z: bv32)
    ensures Xor(z, 0) == z
  {
  }

  /** Up to four bytes enter the register as if their word were added at once. */
  lemma {:induction false} RegisterPack(crc: bv32, w: seq<bv8>)
    requires |w| <= 4
    ensures Register(crc, w) == Iter(BitStep, Xor(crc, Pack(w)), 8 * |w|)
  {
    AdditiveLaw();
    XorLaws();
    RoomyLaw();
    RestoresLaw();
    forall z: bv32
      ensures Xor(z, 0) == z
    {
      XorZero(z);
    }
    FeedGathered(BitStep, Xor, Wide, Up, Join, 0, Fits, crc, w, Widen(w));
  }

  lemma {:induction false} WidenSplit(a: seq<bv8>, b: seq<bv8>)
    ensures Widen(a + b) == Widen(a) + Widen(b)
  {
  }

  /** Payloads that differ, and only inside four consecutive bytes, have different checksums. */
  lemma {:induction false} BurstDetected(head: seq<bv8>, a: seq<bv8>, b: seq<bv8>, tail: seq<bv8>)
    requires |a| == |b| <= 4 && a != b
    ensures Checksum(head + a + tail) != Checksum(head + b + tail)
  {
    var crc := Register(0xFFFF_FFFF, head);
    RegisterParts(head, a, tail);
    RegisterParts(head, b, tail);
    if Register(0xFFFF_FFFF, head + a + tail) == Register(0xFFFF_FFFF, head + b + tail) {
      InjectiveLaw();
      XorLaws();
      RoomyLaw();
      SeparableLaw();
      FeedInjective(BitStep, Xor, Register(crc, a), Register(crc, b), Widen(tail));
      RegisterPack(crc, a);
      RegisterPack(crc, b);
      IterInjective(BitStep, Xor(crc, Pack(a)), Xor(crc, Pack(b)), 8 * |a|);
      XorLeft(crc, Pack(a), Pack(b));
      GatherInjective(Join, 0, Fits, a, b);
    } else {
      NotDiffers(Register(0xFFFF_FFFF, head + a + tail), Register(0xFFFF_FFFF, head + b + tail));
    }
  }

  lemma {:induction false} RegisterParts(head: seq<bv8>, w: seq<bv8>, tail: seq<bv8>)
    ensures Register(0xFFFF_FFFF, head + w + tail)
      == Feed(BitStep, Xor, Register(Register(0xFFFF_FFFF, head), w), Widen(tail))
  {
    WidenSplit(head + w, tail);
    WidenSplit(head, w);
    FeedSplit(BitStep, Xor, 0xFFFF_FFFF, Widen(head + w), Widen(tail));
    FeedSplit(BitStep, Xor, 0xFFFF_FFFF, Widen(head), Widen(w));
  }

  lemma {:induction false} NotDiffers(x: bv32, y: bv32)
    requires x != y
    ensures !x != !y
  {
  }
}
