/**
 * What the chain walk means: every node's value, validity and prior value at
 * every walk, by recursion over (walk, node).
 */
module ChainMeaning {
  import opened Bytes
  import opened ChainTable

  /** The byte node `i` finds at an address: the game may write between two nodes of one walk. */
  type Memory = (nat, nat) -> byte

  /** The memories of walks 1, 2, ... of a run. */
  type Run = nat -> Memory

  function Scale(k: nat): (r: nat)
  {
    if k == 0 then 1 else 0x100 * Scale(k - 1)
  }

  /** The w bytes at addr, lowest address in the low bits. */
  function Packed(m: Memory, i: nat, addr: nat, w: nat): (v: nat)
  {
    if w == 0 then 0 else Packed(m, i, addr, w - 1) + m(i, addr + w - 1) * Scale(w - 1)
  }

  lemma {:induction false} TopDigit(b: byte, s: nat)
    ensures b * s <= 0xFF * s
  {
  }

  lemma {:induction false} PackedFits(m: Memory, i: nat, addr: nat, w: nat)
    ensures Packed(m, i, addr, w) < Scale(w)
  {
    if w > 0 {
      PackedFits(m, i, addr, w - 1);
      TopDigit(m(i, addr + w - 1), Scale(w - 1));
    }
  }

  lemma {:induction false} ScaleMono(w: nat, n: nat)
    requires w <= n
    ensures 1 <= Scale(w) <= Scale(n)
    decreases n
  {
    if w < n {
      ScaleMono(w, n - 1);
    } else if w > 0 {
      ScaleMono(w - 1, n - 1);
    }
  }

  lemma {:induction false} ScaleWord()
    ensures Scale(4) == U32
  {
    assert Scale(1) == 0x100;
    assert Scale(2) == 0x1_0000;
    assert Scale(3) == 0x100_0000;
  }

  function Load(m: Memory, i: nat, addr: nat, w: nat): (v: u32)
    requires w <= 4
    ensures v == Packed(m, i, addr, w)
  {
    PackedFits(m, i, addr, w);
    ScaleMono(w, 4);
    ScaleWord();
    Packed(m, i, addr, w)
  }

  /** The w bytes at addr in memory order. */
  function Raw(m: Memory, i: nat, addr: nat, w: nat): (r: seq<byte>)
    ensures |r| == w
  {
    if w == 0 then [] else Raw(m, i, addr, w - 1) + [m(i, addr + w - 1)]
  }

  lemma {:induction false} RawAt(m: Memory, i: nat, addr: nat, w: nat, k: nat)
    requires k < w
    ensures Raw(m, i, addr, w)[k] == m(i, addr + k)
  {
    if k < w - 1 {
      RawAt(m, i, addr, w - 1, k);
    }
  }

  lemma {:induction false} LittleSnoc(s: seq<byte>, b: byte)
    ensures LittleEndian(s + [b]) == LittleEndian(s) + b * Scale(|s|)
  {
    if s == [] {
      assert [b][1..] == [];
    } else {
      assert (s + [b])[1..] == s[1..] + [b];
      LittleSnoc(s[1..], b);
    }
  }

  lemma {:induction false} PackedIsLittleEndian(m: Memory, i: nat, addr: nat, w: nat)
    ensures Packed(m, i, addr, w) == LittleEndian(Raw(m, i, addr, w))
  {
    if w > 0 {
      PackedIsLittleEndian(m, i, addr, w - 1);
      LittleSnoc(Raw(m, i, addr, w - 1), m(i, addr + w - 1));
    }
  }

  /** The edge to the parent resolves: the parent is valid, and it has a history when the edge asks for one. */
  ghost predicate Edge(t: seq<Node>, h: Run, n: nat, i: nat)
    requires Ordered(t) && i < |t|
    decreases n, i, 1
  {
    t[i].parent == NO_PARENT || (Valid(t, h, n, t[i].parent) && (Kind(t[i]) == CURRENT || n >= 2))
  }

  /** The parent value the edge reads: that of the last walk, the prior one, or the current one. */
  ghost function FromParent(t: seq<Node>, h: Run, n: nat, i: nat): (r: u32)
    requires Ordered(t) && i < |t| && n > 0 && t[i].parent != NO_PARENT
    decreases n, i, 0
  {
    if Kind(t[i]) == DELTA then Value(t, h, n - 1, t[i].parent)
    else if Kind(t[i]) == PRIOR then PriorValue(t, h, n, t[i].parent)
    else Value(t, h, n, t[i].parent)
  }

  /** The transformed parent value the edge delivers; a root gets 0. */
  ghost function Input(t: seq<Node>, h: Run, n: nat, i: nat): (r: u32)
    requires Ordered(t) && i < |t| && n > 0
    decreases n, i, 1
  {
    if t[i].parent == NO_PARENT then 0 else Xform(FromParent(t, h, n, i), Size(t[i]))
  }

  ghost function Address(t: seq<Node>, h: Run, n: nat, i: nat): (r: u32)
    requires Ordered(t) && i < |t| && n > 0
    decreases n, i, 2
  {
    if t[i].parent == NO_PARENT then t[i].operand else (Input(t, h, n, i) + t[i].operand) % U32
  }

  ghost predicate Valid(t: seq<Node>, h: Run, n: nat, i: nat)
    requires Ordered(t) && i < |t|
    decreases n, i, 3
  {
    n > 0 && Edge(t, h, n, i) && (Op(t[i]) == OP_DEREF ==> AddrOk(Address(t, h, n, i), Width(t[i])))
  }

  /** The value of node i after walk n; every value is 0 before the first walk. */
  ghost function Value(t: seq<Node>, h: Run, n: nat, i: nat): (r: u32)
    requires Ordered(t) && i < |t|
    decreases n, i, 4
  {
    if n == 0 then 0
    else if Op(t[i]) == OP_NONE then t[i].operand
    else if !Valid(t, h, n, i) then 0
    else if Op(t[i]) == OP_DEREF then Load(h(n), i, Address(t, h, n, i), Width(t[i]))
    else Combine(Input(t, h, n, i), t[i].operand, Op(t[i]))
  }

  ghost function PriorValue(t: seq<Node>, h: Run, n: nat, i: nat): (r: u32)
    requires Ordered(t) && i < |t|
    decreases n, i, 5
  {
    if n == 0 then 0
    else if Value(t, h, n, i) != Value(t, h, n - 1, i) then Value(t, h, n - 1, i)
    else PriorValue(t, h, n - 1, i)
  }

  /**
   * What a node means: an immediate is its operand; a valid node loads little-endian bytes from its address, the
   * operand behind the transformed parent value on 32 bits, or combines the two by the law of its operation.
   */
  lemma {:induction false} NodeMeans(t: seq<Node>, h: Run, n: nat, i: nat)
    requires Ordered(t) && i < |t| && n > 0
    ensures Op(t[i]) == OP_NONE ==> Value(t, h, n, i) == t[i].operand
    ensures Op(t[i]) == OP_DEREF && Valid(t, h, n, i) ==>
      Value(t, h, n, i) == LittleEndian(Raw(h(n), i, Address(t, h, n, i), Width(t[i])))
    ensures Op(t[i]) != OP_NONE && Op(t[i]) != OP_DEREF && Valid(t, h, n, i) ==>
      Combined(Input(t, h, n, i), t[i].operand, Op(t[i]), Value(t, h, n, i))
    ensures t[i].parent == NO_PARENT ==> Input(t, h, n, i) == 0 && Address(t, h, n, i) == t[i].operand
    ensures var sum := Input(t, h, n, i) + t[i].operand;
            t[i].parent != NO_PARENT ==> Address(t, h, n, i) == sum || Address(t, h, n, i) == sum - U32
  {
    ghost var pv := Input(t, h, n, i);
    if Op(t[i]) == OP_DEREF {
      PackedIsLittleEndian(h(n), i, Address(t, h, n, i), Width(t[i]));
    } else if Op(t[i]) != OP_NONE {
      CombineMeans(pv, t[i].operand, Op(t[i]));
    }
  }

  function Span(addr: nat, w: nat): (r: seq<nat>)
    ensures |r| == w
    ensures forall k :: 0 <= k < w ==> r[k] == addr + k
  {
    if w == 0 then [] else Span(addr, w - 1) + [addr + w - 1]
  }

  predicate AllGame(s: seq<nat>) { forall a :: a in s ==> GameByte(a) }

  lemma {:induction false} SpanInGame(addr: u32, w: nat)
    requires 1 <= w <= 4 && AddrOk(addr, w)
    ensures AllGame(Span(addr, w))
  {
    AddrOkExactly(addr, w);
  }

  /** The addresses node i reads at walk n: game memory only, whatever address was computed. */
  ghost function NodeReads(t: seq<Node>, h: Run, n: nat, i: nat): (r: seq<nat>)
    requires Ordered(t) && i < |t| && n > 0
    ensures AllGame(r)
  {
    if Op(t[i]) == OP_DEREF && Valid(t, h, n, i) then
      SpanInGame(Address(t, h, n, i), Width(t[i]));
      Span(Address(t, h, n, i), Width(t[i]))
    else []
  }

  /** A log of addresses, extended by those the first `count` nodes read at walk n. */
  ghost function Logged(log: seq<nat>, t: seq<Node>, h: Run, n: nat, count: nat): (r: seq<nat>)
    requires Ordered(t) && count <= |t| && n > 0
    ensures AllGame(log) ==> AllGame(r)
  {
    if count == 0 then log else Logged(log, t, h, n, count - 1) + NodeReads(t, h, n, count - 1)
  }

  /** a is on the chain of parents that starts at i. */
  ghost predicate Ancestor(t: seq<Node>, a: nat, i: nat)
    requires Ordered(t) && i < |t|
    decreases i
  {
    t[i].parent != NO_PARENT && (t[i].parent == a || Ancestor(t, a, t[i].parent))
  }

  /** One invalid node switches off everything below it: invalid, no memory read, and 0 unless an immediate. */
  lemma {:induction false} InvalidDescends(t: seq<Node>, h: Run, n: nat, a: nat, i: nat)
    requires Ordered(t) && i < |t| && a < |t| && n > 0
    requires Ancestor(t, a, i) && !Valid(t, h, n, a)
    ensures !Valid(t, h, n, i)
    ensures NodeReads(t, h, n, i) == []
    ensures Op(t[i]) != OP_NONE ==> Value(t, h, n, i) == 0
    decreases i
  {
    if t[i].parent != a {
      InvalidDescends(t, h, n, a, t[i].parent);
    }
  }

  /** The prior value is the latest earlier value that differs from the current one; 0 while none does. */
  lemma {:induction false} PriorIsLastDifferent(t: seq<Node>, h: Run, n: nat, i: nat, m: nat)
    requires Ordered(t) && i < |t| && m <= n
    requires forall k :: m <= k <= n ==> Value(t, h, k, i) == Value(t, h, n, i)
    ensures m > 0 && Value(t, h, m - 1, i) != Value(t, h, n, i) ==> PriorValue(t, h, n, i) == Value(t, h, m - 1, i)
    ensures m == 0 ==> PriorValue(t, h, n, i) == 0
    decreases n
  {
    if m < n {
      assert Value(t, h, n - 1, i) == Value(t, h, n, i);
      PriorIsLastDifferent(t, h, n - 1, i, m);
    }
  }

  /** Two runs that agree on game memory. */
  ghost predicate SameGame(h: Run, k: Run) {
    forall n: nat, i: nat, a: nat :: GameByte(a) ==> h(n)(i, a) == k(n)(i, a)
  }

  lemma {:induction false} SameLoad(h: Run, k: Run, n: nat, i: nat, addr: nat, w: nat)
    requires SameGame(h, k)
    requires forall a :: addr <= a < addr + w ==> GameByte(a)
    ensures Packed(h(n), i, addr, w) == Packed(k(n), i, addr, w)
  {
    if w > 0 {
      SameLoad(h, k, n, i, addr, w - 1);
    }
  }

  lemma {:induction false} SameInput(t: seq<Node>, h: Run, k: Run, n: nat, i: nat)
    requires Ordered(t) && i < |t| && n > 0
    requires t[i].parent != NO_PARENT ==> Alike(t, h, k, n, t[i].parent) && Alike(t, h, k, n - 1, t[i].parent)
    ensures Edge(t, h, n, i) == Edge(t, k, n, i)
    ensures Input(t, h, n, i) == Input(t, k, n, i)
    ensures Address(t, h, n, i) == Address(t, k, n, i)
    ensures Valid(t, h, n, i) == Valid(t, k, n, i)
  {
  }

  ghost predicate Alike(t: seq<Node>, h: Run, k: Run, n: nat, i: nat)
    requires Ordered(t) && i < |t|
  {
    && Value(t, h, n, i) == Value(t, k, n, i)
    && Valid(t, h, n, i) == Valid(t, k, n, i)
    && PriorValue(t, h, n, i) == PriorValue(t, k, n, i)
  }

  lemma {:induction false} SameValue(t: seq<Node>, h: Run, k: Run, n: nat, i: nat)
    requires Ordered(t) && i < |t| && n > 0 && SameGame(h, k)
    requires Input(t, h, n, i) == Input(t, k, n, i)
    requires Address(t, h, n, i) == Address(t, k, n, i)
    requires Valid(t, h, n, i) == Valid(t, k, n, i)
    ensures Value(t, h, n, i) == Value(t, k, n, i)
  {
    if Op(t[i]) == OP_DEREF && Valid(t, h, n, i) {
      AddrOkExactly(Address(t, h, n, i), Width(t[i]));
      SameLoad(h, k, n, i, Address(t, h, n, i), Width(t[i]));
    }
  }

  /** Bytes outside game memory never influence a walk. */
  lemma {:induction false} OnlyGameMatters(t: seq<Node>, h: Run, k: Run, n: nat, i: nat)
    requires Ordered(t) && i < |t| && SameGame(h, k)
    ensures Alike(t, h, k, n, i)
    decreases n, i
  {
    if n > 0 {
      OnlyGameMatters(t, h, k, n - 1, i);
      if t[i].parent != NO_PARENT {
        OnlyGameMatters(t, h, k, n, t[i].parent);
        OnlyGameMatters(t, h, k, n - 1, t[i].parent);
      }
      SameInput(t, h, k, n, i);
      SameValue(t, h, k, n, i);
    }
  }
}

/** The walker: one forward pass over the table per frame, with per-node history. */
module ChainWalk {
  import opened Bytes
  import opened ChainTable
  import opened ChainMeaning

  /** The walker's per-node arrays. */
  datatype State = State(values: seq<u32>, previous: seq<u32>, prior: seq<u32>, valid: seq<byte>,
    validBefore: seq<byte>, havePrevious: bool)

  predicate Sized(t: seq<Node>, s: State) {
    && Ordered(t)
    && |t| <= |s.values| == |s.previous| == |s.prior| == 8 * |s.valid| == 8 * |s.validBefore|
  }

  /** Node j is as walk n left it. */
  ghost predicate Settled(t: seq<Node>, h: Run, s: State, n: nat, j: nat)
    requires Sized(t, s) && j < |t|
  {
    s.values[j] == Value(t, h, n, j) && s.prior[j] == PriorValue(t, h, n, j) && Bit(s.valid, j) == Valid(t, h, n, j)
  }

  /** Node j remembers what walk n left. */
  ghost predicate Remembers(t: seq<Node>, h: Run, s: State, n: nat, j: nat)
    requires Sized(t, s) && j < |t|
  {
    s.previous[j] == Value(t, h, n, j)
  }

  ghost predicate BitRemembers(t: seq<Node>, h: Run, s: State, n: nat, j: nat)
    requires Sized(t, s) && j < |t|
  {
    Bit(s.validBefore, j) == Valid(t, h, n, j)
  }

  ghost predicate AllSettled(t: seq<Node>, h: Run, s: State, n: nat, lo: nat, hi: nat)
    requires Sized(t, s) && hi <= |t|
  {
    forall j: nat {:trigger Settled(t, h, s, n, j)} :: lo <= j < hi ==> Settled(t, h, s, n, j)
  }

  ghost predicate AllRemember(t: seq<Node>, h: Run, s: State, n: nat, hi: nat)
    requires Sized(t, s) && hi <= |t|
  {
    forall j: nat {:trigger Remembers(t, h, s, n, j)} :: j < hi ==> Remembers(t, h, s, n, j)
  }

  ghost predicate AllBits(t: seq<Node>, h: Run, s: State, n: nat)
    requires Sized(t, s)
  {
    forall j: nat {:trigger BitRemembers(t, h, s, n, j)} :: j < |t| ==> BitRemembers(t, h, s, n, j)
  }

  /** Walk n + 1 has passed the nodes below i. */
  ghost predicate Midway(t: seq<Node>, h: Run, s: State, n: nat, i: nat) {
    && Sized(t, s)
    && i <= |t|
    && s.havePrevious == (n > 0)
    && AllSettled(t, h, s, n + 1, 0, i)
    && AllSettled(t, h, s, n, i, |t|)
    && AllRemember(t, h, s, n, i)
    && AllBits(t, h, s, n)
  }

  /** The state after n walks of the run h: values, history and validity are those of the recursive meaning. */
  ghost predicate After(t: seq<Node>, h: Run, s: State, n: nat) {
    && Sized(t, s)
    && s.havePrevious == (n > 0)
    && AllSettled(t, h, s, n, 0, |t|)
    && (n > 0 ==> AllRemember(t, h, s, n - 1, |t|) && AllBits(t, h, s, n - 1))
  }

  lemma {:induction false} Fresh(t: seq<Node>, s: State)
    requires Sized(t, s) && !s.havePrevious
    requires forall j :: 0 <= j < |t| ==> s.values[j] == 0 && s.prior[j] == 0
    requires forall k :: 0 <= k < |s.valid| ==> s.valid[k] == 0
    ensures forall h: Run :: After(t, h, s, 0)
  {
    forall h: Run, j: nat | j < |t|
      ensures Settled(t, h, s, 0, j)
    {
      NoBit(j % 8);
    }
  }

  lemma {:induction false} Begin(t: seq<Node>, h: Run, s: State, r: State, n: nat)
    requires After(t, h, s, n) && r == s.(validBefore := s.valid)
    ensures Midway(t, h, r, n, 0)
  {
    forall j: nat {:trigger Settled(t, h, r, n, j)} | j < |t|
      ensures Settled(t, h, r, n, j) && BitRemembers(t, h, r, n, j)
    {
      assert Settled(t, h, s, n, j);
    }
    assert forall j: nat {:trigger BitRemembers(t, h, r, n, j)} :: j < |t| ==> Settled(t, h, r, n, j);
  }

  lemma {:induction false} Finish(t: seq<Node>, h: Run, s: State, r: State, n: nat)
    requires Midway(t, h, s, n, |t|) && r == s.(havePrevious := true)
    ensures After(t, h, r, n + 1)
  {
    forall j: nat {:trigger Settled(t, h, r, n + 1, j)} | j < |t|
      ensures Settled(t, h, r, n + 1, j)
    {
      assert Settled(t, h, s, n + 1, j);
    }
    forall j: nat {:trigger Remembers(t, h, r, n, j)} | j < |t|
      ensures Remembers(t, h, r, n, j)
    {
      assert Remembers(t, h, s, n, j);
    }
    forall j: nat {:trigger BitRemembers(t, h, r, n, j)} | j < |t|
      ensures BitRemembers(t, h, r, n, j)
    {
      assert BitRemembers(t, h, s, n, j);
    }
  }

  function Recorded(s: State, i: nat, v: u32): (r: State)
    requires i < |s.values| && i < |s.previous| && i < |s.prior|
  {
    s.(values := s.values[i := v], previous := s.previous[i := s.values[i]],
       prior := if v != s.values[i] then s.prior[i := s.values[i]] else s.prior)
  }

  lemma {:induction false} Passes(t: seq<Node>, h: Run, s: State, r: State, n: nat, i: nat, v: u32, ok: bool)
    requires i < |t| && Midway(t, h, s, n, i)
    requires r == Recorded(s, i, v).(valid := SetBit(s.valid, i, ok))
    requires v == Value(t, h, n + 1, i) && ok == Valid(t, h, n + 1, i)
    ensures Midway(t, h, r, n, i + 1)
  {
    assert Settled(t, h, s, n, i);
    forall j: nat {:trigger Settled(t, h, r, n + 1, j)} | j < i + 1
      ensures Settled(t, h, r, n + 1, j)
    {
      assert j < i ==> Settled(t, h, s, n + 1, j);
    }
    forall j: nat {:trigger Remembers(t, h, r, n, j)} | j < i + 1
      ensures Remembers(t, h, r, n, j)
    {
      assert j < i ==> Remembers(t, h, s, n, j);
    }
    forall j: nat {:trigger Settled(t, h, r, n, j)} | i + 1 <= j < |t|
      ensures Settled(t, h, r, n, j)
    {
      assert Settled(t, h, s, n, j);
    }
    forall j: nat {:trigger BitRemembers(t, h, r, n, j)} | j < |t|
      ensures BitRemembers(t, h, r, n, j)
    {
      assert BitRemembers(t, h, s, n, j);
    }
  }

  class Walker {
    const nodes: seq<Node>
    const values: array<u32>
    const previous: array<u32>
    const prior: array<u32>
    const valid: array<byte>
    const validBefore: array<byte>
    var havePrevious: bool
    ghost var log: seq<nat>

    ghost predicate Shaped() {
      && Ordered(nodes)
      && |nodes| <= MAX_NODES
      && values.Length == previous.Length == prior.Length == MAX_NODES
      && 8 * valid.Length == 8 * validBefore.Length == MAX_NODES
      && values != previous && values != prior && previous != prior && valid != validBefore
    }

    ghost function View(): (s: State)
      reads this, values, previous, prior, valid, validBefore
    {
      State(values[..], previous[..], prior[..], valid[..], validBefore[..], havePrevious)
    }

    /** ra_read_ppc_byte. */
    method ReadByte(m: Memory, i: nat, addr: u32) returns (b: byte)
      modifies this`log
      ensures b == if GameByte(addr) then m(i, addr) else 0
      ensures log == if GameByte(addr) then old(log) + [addr] else old(log)
    {
      if addr <= 0x017F_FFFF || (addr >= MEM2_START && addr < MEM2_END) {
        b := m(i, addr);
        log := log + [addr];
      } else {
        b := 0;
      }
    }

    method ReadValue(m: Memory, i: nat, addr: u32, w: nat) returns (v: u32)
      requires 1 <= w <= 4 && AddrOk(addr, w)
      modifies this`log
      ensures v == Load(m, i, addr, w)
      ensures log == old(log) + Span(addr, w)
    {
      AddrOkExactly(addr, w);
      ghost var before := log;
      v := 0;
      var k := 0;
      while k < w
        invariant k <= w && v == Load(m, i, addr, k)
        invariant log == before + Span(addr, k)
      {
        assert GameByte(addr + k);
        var b := ReadByte(m, i, addr + k);
        assert v + b * Scale(k) == Load(m, i, addr, k + 1);
        v := v + b * Scale(k);
        k := k + 1;
      }
    }

    /** The state right after the table was fetched: cleared history over a bitmap that was never written. */
    constructor (t: seq<Node>)
      requires Ordered(t) && |t| <= MAX_NODES
      ensures Shaped() && nodes == t && log == []
      ensures fresh(values) && fresh(previous) && fresh(prior) && fresh(valid) && fresh(validBefore)
      ensures forall h: Run :: After(nodes, h, View(), 0)
    {
      nodes := t;
      havePrevious, log := false, [];
      values := new u32[MAX_NODES](_ => 0);
      previous := new u32[MAX_NODES](_ => 0);
      prior := new u32[MAX_NODES](_ => 0);
      valid := new byte[MAX_NODES / 8](_ => 0);
      validBefore := new byte[MAX_NODES / 8](_ => 0);
      new;
      Fresh(nodes, View());
    }

    /** ra_chain_walk: one more frame. */
    method Walk(m: Memory, ghost h: Run, ghost n: nat)
      requires Shaped() && After(nodes, h, View(), n) && m == h(n + 1)
      modifies this`havePrevious, this`log, values, previous, prior, valid, validBefore
      ensures After(nodes, h, View(), n + 1)
      ensures log == Logged(old(log), nodes, h, n + 1, |nodes|)
    {
      ghost var start := View();
      CopyBitmap();
      Begin(nodes, h, start, View(), n);
      Pass(m, h, n);
      ghost var last := View();
      havePrevious := true;
      Finish(nodes, h, last, View(), n);
    }

    method Pass(m: Memory, ghost h: Run, ghost n: nat)
      requires Shaped() && Midway(nodes, h, View(), n, 0) && m == h(n + 1)
      modifies values, previous, prior, valid, this`log
      ensures Midway(nodes, h, View(), n, |nodes|)
      ensures log == Logged(old(log), nodes, h, n + 1, |nodes|)
    {
      var i := 0;
      while i < |nodes|
        invariant i <= |nodes| && Midway(nodes, h, View(), n, i)
        invariant log == Logged(old(log), nodes, h, n + 1, i)
      {
        Visit(m, h, n, i);
        i := i + 1;
      }
    }

    method CopyBitmap()
      requires Shaped()
      modifies validBefore
      ensures View() == old(View()).(validBefore := old(valid[..]))
    {
      forall k | 0 <= k < validBefore.Length {
        validBefore[k] := valid[k];
      }
      assert validBefore[..] == old(valid[..]);
    }

    /** One node of the pass. */
    method Visit(m: Memory, ghost h: Run, ghost n: nat, i: nat)
      requires Shaped() && i < |nodes| && Midway(nodes, h, View(), n, i) && m == h(n + 1)
      modifies values, previous, prior, valid, this`log
      ensures Midway(nodes, h, View(), n, i + 1)
      ensures log == old(log) + NodeReads(nodes, h, n + 1, i)
    {
      var node := nodes[i];
      var edge, input := Follow(node, h, n, i);
      var ok, v := Evaluate(m, node, edge, input, h, n, i);
      ghost var s := View();
      Record(i, v);
      SetValid(i, ok);
      Passes(nodes, h, s, View(), n, i, v, ok);
    }

    /** The history rule: the old value is remembered, and becomes the prior one when the value changed. */
    method Record(i: nat, v: u32)
      requires Shaped() && i < MAX_NODES
      modifies values, previous, prior
      ensures View() == Recorded(old(View()), i, v)
    {
      var was := values[i];
      previous[i] := was;
      if v != was {
        prior[i] := was;
      }
      values[i] := v;
    }

    method SetValid(i: nat, ok: bool)
      requires Shaped() && i < MAX_NODES
      modifies valid
      ensures View() == old(View()).(valid := SetBit(old(valid[..]), i, ok))
    {
      valid[i / 8] := SetBit(valid[..], i, ok)[i / 8];
      assert valid[..] == SetBit(old(valid[..]), i, ok);
    }

    /** The parent edge: does it resolve, and what does it deliver? */
    method Follow(node: Node, ghost h: Run, ghost n: nat, i: nat) returns (edge: bool, input: u32)
      requires Shaped() && i < |nodes| && Midway(nodes, h, View(), n, i) && node == nodes[i]
      ensures edge == Edge(nodes, h, n + 1, i)
      ensures edge ==> input == Input(nodes, h, n + 1, i)
    {
      edge, input := true, 0;
      if node.parent != NO_PARENT {
        assert Settled(nodes, h, View(), n + 1, node.parent) && Remembers(nodes, h, View(), n, node.parent);
        if !Bit(valid[..], node.parent) {
          edge := false;
        } else if Kind(node) != CURRENT && !havePrevious {
          edge := false;
        } else {
          var raw := if Kind(node) == DELTA then previous[node.parent]
                     else if Kind(node) == PRIOR then prior[node.parent]
                     else values[node.parent];
          input := Xform(raw, Size(node));
        }
      }
    }

    /** The node's value and validity, from its edge. */
    method Evaluate(m: Memory, node: Node, edge: bool, input: u32, ghost h: Run, ghost n: nat, i: nat)
      returns (ok: bool, v: u32)
      requires Shaped() && i < |nodes| && node == nodes[i] && m == h(n + 1)
      requires edge == Edge(nodes, h, n + 1, i) && (edge ==> input == Input(nodes, h, n + 1, i))
      modifies this`log
      ensures ok == Valid(nodes, h, n + 1, i)
      ensures v == Value(nodes, h, n + 1, i)
      ensures log == old(log) + NodeReads(nodes, h, n + 1, i)
    {
      ok, v := edge, 0;
      if Op(node) == OP_NONE {
        v := node.operand;
      } else if Op(node) == OP_DEREF {
        var addr: u32 := if node.parent == NO_PARENT then node.operand else (input + node.operand) % U32;
        if ok && AddrOk(addr, Width(node)) {
          v := ReadValue(m, i, addr, Width(node));
        } else {
          ok := false;
        }
      } else if ok {
        v := Combine(input, node.operand, Op(node));
      }
    }
  }
}
