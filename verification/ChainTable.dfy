/**
 * The pointer-chain table: nodes, the edge transform, the u32 combine
 * operations and the guards on game memory.
 */
module ChainTable {
  import opened Bytes
  import opened Arithmetic

  /**
   * A wire node; `op` packs the operation, the read width and the shipped flag, `psize` the transform and the history
   * kind.
   */
  datatype Node = Node(operand: u32, parent: nat, op: byte, psize: byte)

  const NO_PARENT := 0xFFFF
  const MAX_NODES := 3072

  const OP_NONE := 6
  const OP_MULT := 7
  const OP_DIV := 8
  const OP_AND := 9
  const OP_XOR := 10
  const OP_MOD := 11
  const OP_ADD := 12
  const OP_SUB := 13
  const OP_SUB_PARENT := 14
  const OP_ADD_ACC := 15
  const OP_SUB_ACC := 16
  const OP_DEREF := 17

  const CURRENT := 0
  const DELTA := 1
  const PRIOR := 2

  function Op(n: Node): (r: nat) { n.op % 32 }

  function Width(n: Node): (r: nat) ensures 1 <= r <= 4 { n.op / 32 % 4 + 1 }

  predicate Shipped(n: Node) { n.op >= 128 }

  function Kind(n: Node): (r: nat) { n.psize / 64 }

  function Size(n: Node): (r: nat) { n.psize % 64 }

  /** Every edge points at an earlier slot. */
  predicate Ordered(t: seq<Node>) {
    forall i :: 0 <= i < |t| ==> t[i].parent == NO_PARENT || t[i].parent < i
  }

  /**
   * The operation byte is operation, read width less one and shipped flag; the other byte transform and history kind.
   */
  lemma {:induction false} NodeBytes(n: Node)
    ensures n.op == Op(n) + 32 * (Width(n) - 1) + (if Shipped(n) then 128 else 0)
    ensures Op(n) < 32 && 1 <= Width(n) <= 4
    ensures n.psize == Size(n) + 64 * Kind(n) && Size(n) < 64 && Kind(n) < 4
  {
  }

  /** u32 operations that work bit by bit. */
  function AndBits(x: nat, y: nat): (r: nat)
    ensures r <= x
  {
    if x == 0 then 0 else (if x % 2 == 1 && y % 2 == 1 then 1 else 0) + 2 * AndBits(x / 2, y / 2)
  }

  function XorBits(x: nat, y: nat): (r: nat)
    decreases x + y
  {
    if x == 0 && y == 0 then 0 else (if x % 2 != y % 2 then 1 else 0) + 2 * XorBits(x / 2, y / 2)
  }

  lemma {:induction false} XorBitsFit(x: nat, y: nat, n: nat)
    requires x < Power(n) && y < Power(n)
    ensures XorBits(x, y) < Power(n)
  {
    if n > 0 {
      XorBitsFit(x / 2, y / 2, n - 1);
    }
  }

  lemma {:induction false} PowerWord()
    ensures Power(32) == U32
  {
    PowerSum(8, 8);
    PowerSum(16, 8);
    PowerSum(24, 8);
    PowerByte();
  }

  lemma {:induction false} PowerSum(m: nat, n: nat)
    ensures Power(m + n) == Power(m) * Power(n)
  {
    if m > 0 {
      PowerSum(m - 1, n);
    }
  }

  function And(x: u32, y: u32): (r: u32) { AndBits(x, y) }

  function Xor(x: u32, y: u32): (r: u32) {
    PowerWord();
    XorBitsFit(x, y, 32);
    XorBits(x, y)
  }

  function Multiply(x: u32, y: u32): (r: u32) { (x * y) % U32 }

  /** Division by zero yields zero. */
  function Divide(x: u32, y: u32): (r: u32) { if y == 0 then 0 else x / y }

  function Modulo(x: u32, y: u32): (r: u32) { if y == 0 then 0 else x % y }

  function Combine(pv: u32, o: u32, op: nat): (r: u32) {
    if op == OP_AND then And(pv, o)
    else if op == OP_ADD then (pv + o) % U32
    else if op == OP_SUB then (pv - o) % U32
    else if op == OP_MULT then Multiply(pv, o)
    else if op == OP_DIV then Divide(pv, o)
    else if op == OP_XOR then Xor(pv, o)
    else if op == OP_MOD then Modulo(pv, o)
    else if op == OP_SUB_PARENT then (o - pv) % U32
    else if op == OP_ADD_ACC then (pv + o) % U32
    else if op == OP_SUB_ACC then (pv - o) % U32
    else 0
  }

  /** What an operation makes of the parent value pv and the operand o. */
  ghost predicate Combined(pv: u32, o: u32, op: nat, r: u32) {
    if op == OP_AND then BothBits(pv, o, r)
    else if op == OP_XOR then OneBit(pv, o, r)
    else if op == OP_ADD || op == OP_ADD_ACC then r == pv + o || r == pv + o - U32
    else if op == OP_SUB || op == OP_SUB_ACC then r + o == pv || r + o == pv + U32
    else if op == OP_SUB_PARENT then r + pv == o || r + pv == o + U32
    else if op == OP_MULT then IsProduct(pv, o, r)
    else if op == OP_DIV then IsQuotient(pv, o, r)
    else if op == OP_MOD then IsRemainder(pv, o, r)
    else r == 0
  }

  ghost predicate BothBits(x: nat, y: nat, r: nat) { forall k: nat :: BitOf(r, k) <==> BitOf(x, k) && BitOf(y, k) }

  ghost predicate OneBit(x: nat, y: nat, r: nat) {
    forall k: nat :: BitOf(r, k) <==> (BitOf(x, k) <==> !BitOf(y, k))
  }

  /** The low 32 bits of the product. */
  ghost predicate IsProduct(x: nat, y: nat, r: nat) { r < U32 && exists q: nat :: Product(x, y) == Product(q, U32) + r }

  /** Division by zero yields zero, and so does its remainder. */
  ghost predicate IsQuotient(x: nat, y: nat, r: nat) {
    if y == 0 then r == 0 else Product(r, y) <= x < Product(r, y) + y
  }

  ghost predicate IsRemainder(x: nat, y: nat, r: nat) {
    if y == 0 then r == 0 else r < y && exists q: nat :: x == Product(q, y) + r
  }

  lemma {:induction false} BitwiseMeans(pv: u32, o: u32, op: nat)
    requires op == OP_AND || op == OP_XOR
    ensures Combined(pv, o, op, Combine(pv, o, op))
  {
    AndLaw(pv, o);
    XorLaw(pv, o);
  }

  lemma {:induction false} RatioMeans(pv: u32, o: u32, op: nat)
    requires op == OP_MULT || op == OP_DIV || op == OP_MOD
    ensures Combined(pv, o, op, Combine(pv, o, op))
  {
    MultiplyLaw(pv, o);
    DivideLaw(pv, o);
    ModuloLaw(pv, o);
  }

  lemma {:induction false} SumMeans(pv: u32, o: u32, op: nat)
    requires op != OP_AND && op != OP_XOR && op != OP_MULT && op != OP_DIV && op != OP_MOD
    ensures Combined(pv, o, op, Combine(pv, o, op))
  {
  }

  /** Every operation meets its law. */
  lemma {:induction false} CombineMeans(pv: u32, o: u32, op: nat)
    ensures Combined(pv, o, op, Combine(pv, o, op))
  {
    if op == OP_AND || op == OP_XOR {
      BitwiseMeans(pv, o, op);
    } else if op == OP_MULT || op == OP_DIV || op == OP_MOD {
      RatioMeans(pv, o, op);
    } else {
      SumMeans(pv, o, op);
    }
  }

  lemma {:induction false} AndLaw(x: u32, y: u32)
    ensures BothBits(x, y, And(x, y))
  {
    forall k: nat
      ensures BitOf(And(x, y), k) <==> BitOf(x, k) && BitOf(y, k)
    {
      AndAt(x, y, k);
    }
  }

  lemma {:induction false} XorLaw(x: u32, y: u32)
    ensures OneBit(x, y, Xor(x, y))
  {
    forall k: nat
      ensures BitOf(Xor(x, y), k) <==> (BitOf(x, k) <==> !BitOf(y, k))
    {
      XorAt(x, y, k);
    }
  }

  lemma {:induction false} AndAt(x: nat, y: nat, k: nat)
    ensures BitOf(AndBits(x, y), k) <==> BitOf(x, k) && BitOf(y, k)
  {
    if x == 0 {
      NoBit(k);
    } else if k > 0 {
      AndAt(x / 2, y / 2, k - 1);
    }
  }

  lemma {:induction false} XorAt(x: nat, y: nat, k: nat)
    ensures BitOf(XorBits(x, y), k) <==> (BitOf(x, k) <==> !BitOf(y, k))
    decreases k
  {
    if x == 0 && y == 0 {
      NoBit(k);
    } else if k > 0 {
      XorAt(x / 2, y / 2, k - 1);
    }
  }

  lemma {:induction false} MultiplyLaw(x: u32, y: u32)
    ensures IsProduct(x, y, Multiply(x, y))
  {
    ProductIs(x, y);
    var q := x * y / U32;
    ProductIs(q, U32);
  }

  lemma {:induction false} DivideLaw(x: u32, y: u32)
    ensures IsQuotient(x, y, Divide(x, y))
  {
    if y > 0 {
      ProductIs(x / y, y);
      DivModIs(x, y);
    }
  }

  lemma {:induction false} ModuloLaw(x: u32, y: u32)
    ensures IsRemainder(x, y, Modulo(x, y))
  {
    if y > 0 {
      ProductIs(x / y, y);
      DivModIs(x, y);
    }
  }

  /** ra_chain_xform: masks and byte swaps. */
  function Xform(v: u32, size: nat): (r: u32) {
    if size == 3 then v
    else if size == 17 then
      v / 0x100_0000 + v / 0x1_0000 % 0x100 * 0x100 + v / 0x100 % 0x100 * 0x1_0000 + v % 0x100 * 0x100_0000
    else if size == 0 then v % 0x100
    else if size == 1 then v % 0x1_0000
    else if size == 2 then v % 0x100_0000
    else if size == 15 then v / 0x100 % 0x100 + v % 0x100 * 0x100
    else if size == 16 then v / 0x1_0000 % 0x100 + v / 0x100 % 0x100 * 0x100 + v % 0x100 * 0x1_0000
    else v
  }

  /** How many bytes of the parent value a size code keeps, and whether it turns them round. */
  function Kept(size: nat): (r: (nat, bool)) {
    if size == 0 then (1, false)
    else if size == 1 then (2, false)
    else if size == 2 then (3, false)
    else if size == 15 then (2, true)
    else if size == 16 then (3, true)
    else if size == 17 then (4, true)
    else (4, false)
  }

  function Reverse(s: seq<byte>): (r: seq<byte>) {
    if s == [] then [] else Reverse(s[1..]) + [s[0]]
  }

  lemma {:induction false} LittleCons(b: byte, s: seq<byte>)
    ensures LittleEndian([b] + s) == b + 0x100 * LittleEndian(s)
    ensures Reverse([b] + s) == Reverse(s) + [b]
  {
    assert ([b] + s)[1..] == s;
  }

  lemma {:induction false} Little4(a: byte, b: byte, c: byte, d: byte)
    ensures LittleEndian([a]) == a
    ensures LittleEndian([a, b]) == a + 0x100 * b
    ensures LittleEndian([a, b, c]) == a + 0x100 * b + 0x1_0000 * c
    ensures LittleEndian([a, b, c, d]) == a + 0x100 * b + 0x1_0000 * c + 0x100_0000 * d
  {
    LittleOne(a); LittleOne(b); LittleOne(c); LittleOne(d);
    assert [a, b] == [a] + [b] && [b, c] == [b] + [c] && [c, d] == [c] + [d];
    assert [a, b, c] == [a] + [b, c] && [b, c, d] == [b] + [c, d] && [a, b, c, d] == [a] + [b, c, d];
    LittleCons(a, [b]); LittleCons(b, [c]); LittleCons(c, [d]);
    LittleCons(a, [b, c]); LittleCons(b, [c, d]); LittleCons(a, [b, c, d]);
  }

  lemma {:induction false} LittleOne(a: byte)
    ensures LittleEndian([a]) == a && Reverse([a]) == [a]
  {
    assert [a][1..] == [];
  }

  lemma {:induction false} Digits4(a: byte, b: byte, c: byte, d: byte, v: u32)
    requires v == a + 0x100 * b + 0x1_0000 * c + 0x100_0000 * d
    ensures v % 0x100 == a && v / 0x100 % 0x100 == b && v / 0x1_0000 % 0x100 == c && v / 0x100_0000 == d
    ensures v % 0x1_0000 == a + 0x100 * b && v % 0x100_0000 == a + 0x100 * b + 0x1_0000 * c
  {
    assert v / 0x100 == b + 0x100 * c + 0x1_0000 * d;
    assert v / 0x1_0000 == c + 0x100 * d;
  }

  lemma {:induction false} Reversed(a: byte, b: byte, c: byte, d: byte)
    ensures Reverse([a, b]) == [b, a]
    ensures Reverse([a, b, c]) == [c, b, a]
    ensures Reverse([a, b, c, d]) == [d, c, b, a]
  {
    LittleOne(b); LittleOne(c); LittleOne(d);
    assert [a, b] == [a] + [b] && [b, c] == [b] + [c] && [c, d] == [c] + [d];
    assert [a, b, c] == [a] + [b, c] && [b, c, d] == [b] + [c, d] && [a, b, c, d] == [a] + [b, c, d];
    LittleCons(a, [b]); LittleCons(b, [c]); LittleCons(c, [d]);
    LittleCons(a, [b, c]); LittleCons(b, [c, d]); LittleCons(a, [b, c, d]);
  }

  /**
   * The transform in terms of the memory bytes a..d of the parent value: it
   * keeps the first ones, and the big-endian codes read them the other way round.
   */
  lemma {:induction false} XformBytes(a: byte, b: byte, c: byte, d: byte, v: u32, size: nat)
    requires v == LittleEndian([a, b, c, d])
    ensures var (n, swap) := Kept(size);
            var front := [a, b, c, d][..n];
            Xform(v, size) == LittleEndian(if swap then Reverse(front) else front)
  {
    var s := [a, b, c, d];
    Little4(a, b, c, d);
    Digits4(a, b, c, d, v);
    assert s[..1] == [a] && s[..2] == [a, b] && s[..3] == [a, b, c] && s[..4] == s;
    if Kept(size).1 {
      XformSwapped(a, b, c, d, v, size);
    }
  }

  lemma {:induction false} XformSwapped(a: byte, b: byte, c: byte, d: byte, v: u32, size: nat)
    requires v == a + 0x100 * b + 0x1_0000 * c + 0x100_0000 * d && Kept(size).1
    ensures Xform(v, size) == LittleEndian(Reverse([a, b, c, d][..Kept(size).0]))
  {
    var s := [a, b, c, d];
    Digits4(a, b, c, d, v);
    Reversed(a, b, c, d);
    assert s[..2] == [a, b] && s[..3] == [a, b, c] && s[..4] == s;
    Little4(b, a, a, a);
    Little4(c, b, a, a);
    Little4(d, c, b, a);
  }

  const MEM1_END := 0x0180_0000
  const MEM2_START := 0x1000_0000
  const MEM2_END := 0x1340_0000

  /** The memory the game can own. */
  predicate GameByte(addr: int) { 0 <= addr < MEM1_END || MEM2_START <= addr < MEM2_END }

  /** ra_chain_addr_ok, in u32 arithmetic. */
  predicate AddrOk(addr: u32, w: nat) {
    var end: u32 := (addr + w - 1) % U32;
    if end < addr then false
    else if end <= 0x017F_FFFF then true
    else addr >= MEM2_START && end < MEM2_END
  }

  /** The guard accepts exactly the reads whose every byte is game memory, the wrapping ones excluded. */
  lemma {:induction false} AddrOkExactly(addr: u32, w: nat)
    requires 1 <= w <= 4
    ensures AddrOk(addr, w) <==> forall a :: addr <= a < addr + w ==> GameByte(a)
    ensures forall a :: GameByte(a) <==> 0 <= a < 0x0180_0000 || 0x1000_0000 <= a < 0x1340_0000
  {
    assert GameByte(addr) && GameByte(addr + w - 1) ==> AddrOk(addr, w);
    if AddrOk(addr, w) {
      assert addr + w - 1 < U32;
    }
  }

  /** Bit k of x, counted from the low end. */
  predicate BitOf(x: nat, k: nat)
  {
    if k == 0 then x % 2 == 1 else BitOf(x / 2, k - 1)
  }

  /** x |= 1 << k, or x &= ~(1 << k). */
  function WithBit(x: nat, k: nat, on: bool): (r: nat)
  {
    if k > 0 then x % 2 + 2 * WithBit(x / 2, k - 1, on)
    else if on then x / 2 * 2 + 1 else x / 2 * 2
  }

  lemma {:induction false} WithBitIs(x: nat, k: nat, on: bool, j: nat)
    ensures BitOf(WithBit(x, k, on), j) == if j == k then on else BitOf(x, j)
  {
    if k > 0 && j > 0 {
      WithBitIs(x / 2, k - 1, on, j - 1);
    }
  }

  lemma {:induction false} WithBitFits(x: nat, k: nat, on: bool, n: nat)
    requires k < n && x < Power(n)
    ensures WithBit(x, k, on) < Power(n)
  {
    if k > 0 {
      WithBitFits(x / 2, k - 1, on, n - 1);
    }
  }

  lemma {:induction false} PowerByte()
    ensures Power(8) == 256
  {
  }

  /** Bits count from the low end: bit k weighs 2 to the power of k. */
  lemma {:induction false} BitWeighs(x: nat, k: nat)
    ensures BitOf(x, k) <==> x / Power(k) % 2 == 1
  {
    if k > 0 {
      BitWeighs(x / 2, k - 1);
      HalfThenPower(x, Power(k - 1));
    }
  }

  lemma {:induction false} HalfThenPower(x: nat, p: nat)
    requires p > 0
    ensures x / (2 * p) == x / 2 / p
  {
    var h := x / 2;
    DivModIs(h, p);
    DivModUnique(x, 2 * p, h / p, 2 * (h % p) + x % 2);
  }

  lemma {:induction false} NoBit(k: nat)
    ensures !BitOf(0, k)
  {
    if k > 0 {
      NoBit(k - 1);
    }
  }

  predicate Bit(bm: seq<byte>, i: nat)
    requires i < 8 * |bm|
  {
    BitOf(bm[i / 8], i % 8)
  }

  function SetBit(bm: seq<byte>, i: nat, on: bool): (r: seq<byte>)
    requires i < 8 * |bm|
    ensures |r| == |bm|
    ensures forall j: nat :: j < 8 * |bm| ==> Bit(r, j) == if j == i then on else Bit(bm, j)
  {
    PowerByte();
    WithBitFits(bm[i / 8], i % 8, on, 8);
    var r := bm[i / 8 := WithBit(bm[i / 8], i % 8, on)];
    assert forall j: nat :: j < 8 * |bm| ==> Bit(r, j) == if j == i then on else Bit(bm, j) by {
      forall j: nat | j < 8 * |bm|
        ensures Bit(r, j) == if j == i then on else Bit(bm, j)
      {
        WithBitIs(bm[i / 8], i % 8, on, j % 8);
      }
    }
    r
  }
}
