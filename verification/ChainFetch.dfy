/** Chunked fetch of the chain table: checks, retries, and the lists derived from it. */
module ChainChunk {
  import opened Bytes
  import opened ChainTable
  import Crc

  /** A response behind its padding: header, chunk header, nodes, checksum. */
  type Reply = seq<bv8>

  const REPLY_SIZE := 4114
  const CHUNK_NODES := 512
  const MAGIC := 0xAE

  function B(r: Reply, i: nat): (b: byte)
    requires i < |r|
  {
    r[i] as byte
  }

  function H(r: Reply, i: nat): (v: nat)
    requires i + 1 < |r|
    ensures v < 0x1_0000
  {
    B(r, i) * 0x100 + B(r, i + 1)
  }

  function W(r: Reply, i: nat): (v: u32)
    requires i + 3 < |r|
  {
    H(r, i) * 0x1_0000 + H(r, i + 2)
  }

  function NodeCount(r: Reply): (n: nat) requires |r| == REPLY_SIZE { H(r, 8) }

  function TotalNodes(r: Reply): (n: nat) requires |r| == REPLY_SIZE { H(r, 10) }

  predicate Last(r: Reply) requires |r| == REPLY_SIZE { B(r, 12) != 0 }

  function NodeAt(r: Reply, i: nat): (n: Node)
    requires i + 7 < |r|
  {
    Node(W(r, i), H(r, i + 4), B(r, i + 6), B(r, i + 7))
  }

  /** The first n nodes of a chunk. */
  function NodesOf(r: Reply, n: nat): (s: seq<Node>)
    requires |r| == REPLY_SIZE && n <= CHUNK_NODES
    ensures |s| == n
  {
    if n == 0 then [] else NodesOf(r, n - 1) + [NodeAt(r, 14 + 8 * (n - 1))]
  }

  lemma {:induction false} NodesOfAt(r: Reply, n: nat, k: nat)
    requires |r| == REPLY_SIZE && k < n <= CHUNK_NODES
    ensures NodesOf(r, n)[k] == NodeAt(r, 14 + 8 * k)
  {
    if k < n - 1 {
      NodesOfAt(r, n - 1, k);
    }
  }

  /** n bytes of a response, as numbers. */
  function Octets(r: Reply, i: nat, n: nat): (s: seq<byte>)
    requires i + n <= |r|
    ensures |s| == n
  {
    if n == 0 then [] else Octets(r, i, n - 1) + [B(r, i + n - 1)]
  }

  lemma {:induction false} OctetsAt(r: Reply, i: nat, n: nat, k: nat)
    requires k < n && i + n <= |r|
    ensures Octets(r, i, n)[k] == B(r, i + k)
  {
    if k < n - 1 {
      OctetsAt(r, i, n - 1, k);
    }
  }

  /** Numbers of two and four bytes are big-endian. */
  lemma {:induction false} FieldsAreBig(r: Reply, i: nat)
    ensures i + 2 <= |r| ==> H(r, i) == BigEndian(Octets(r, i, 2))
    ensures i + 4 <= |r| ==> W(r, i) == BigEndian(Octets(r, i, 4))
  {
    if i + 2 <= |r| {
      OctetsAt(r, i, 2, 0);
      OctetsAt(r, i, 2, 1);
      BigPair(Octets(r, i, 2));
    }
    if i + 4 <= |r| {
      OctetsAt(r, i, 4, 0);
      OctetsAt(r, i, 4, 1);
      OctetsAt(r, i, 4, 2);
      OctetsAt(r, i, 4, 3);
      BigWord(Octets(r, i, 4));
    }
  }

  /** Which bytes the header checks look at. */
  lemma {:induction false} HeaderBytes(r: Reply, index: nat, base: nat)
    requires |r| == REPLY_SIZE
    ensures var count, total := BigEndian(Octets(r, 8, 2)), BigEndian(Octets(r, 10, 2));
            && NodeCount(r) == count && TotalNodes(r) == total && (Last(r) <==> r[12] != 0)
            && (HeaderCheck(r, index, base) == 0 <==>
                && r[0] == 0xAE && BigEndian(Octets(r, 6, 2)) == index
                && count <= 512 && base + count <= total <= 3072)
  {
    FieldsAreBig(r, 6);
    FieldsAreBig(r, 8);
    FieldsAreBig(r, 10);
  }

  /** A node of a chunk is eight bytes: operand, parent, operation and edge. */
  lemma {:induction false} NodeFields(r: Reply, n: nat, k: nat)
    requires |r| == REPLY_SIZE && k < n <= CHUNK_NODES
    ensures var node, at := NodesOf(r, n)[k], 14 + 8 * k;
            && node.operand == BigEndian(Octets(r, at, 4)) && node.parent == BigEndian(Octets(r, at + 4, 2))
            && node.op == B(r, at + 6) && node.psize == B(r, at + 7)
  {
    NodesOfAt(r, n, k);
    FieldsAreBig(r, 14 + 8 * k);
    FieldsAreBig(r, 18 + 8 * k);
  }

  function TrailerWord(a: bv8, b: bv8, c: bv8, d: bv8): (v: bv32) {
    (Crc.Wide(a) << 24) | (Crc.Wide(b) << 16) | (Crc.Wide(c) << 8) | Crc.Wide(d)
  }

  /** Does a trailer of four bytes match a payload? */
  type Seal = (seq<bv8>, seq<bv8>) -> bool

  ghost predicate CrcSeal(p: seq<bv8>, t: seq<bv8>) {
    |t| == 4 && TrailerWord(t[0], t[1], t[2], t[3]) == Crc.Checksum(p)
  }

  /** The trailer is big-endian: that of the letter a. */
  lemma {:induction false} KnownSeal()
    ensures CrcSeal([0x61], [0xE8, 0xB7, 0xBE, 0x43])
  {
    Crc.KnownChecksums();
    KnownWord();
  }

  lemma {:induction false} KnownWord()
    ensures TrailerWord(0xE8, 0xB7, 0xBE, 0x43) == 0xE8B7_BE43
  {
  }

  /** The four bytes behind the nodes match everything before them. */
  ghost predicate Sealed(r: Reply, seal: Seal)
    requires |r| == REPLY_SIZE && NodeCount(r) <= CHUNK_NODES
  {
    seal(r[..14 + 8 * NodeCount(r)], r[14 + 8 * NodeCount(r)..][..4])
  }

  predicate KnownOp(op: nat) { op == OP_NONE || op == OP_DEREF || OP_MULT <= op <= OP_SUB_ACC }

  /** A node that may stand in slot i. */
  predicate Fit(n: Node, i: nat) { (n.parent == NO_PARENT || n.parent < i) && KnownOp(Op(n)) }

  /** What a node that fits its slot says. */
  lemma {:induction false} FitIs(n: Node, i: nat)
    ensures Fit(n, i) <==> (n.parent == 0xFFFF || n.parent < i) && 6 <= n.op % 32 <= 17
  {
  }

  /** The first m of these nodes fit behind `base` others. */
  predicate AllFit(ns: seq<Node>, base: nat, m: nat)
    requires m <= |ns|
  {
    forall i :: 0 <= i < m ==> Fit(ns[i], base + i)
  }

  /** The header checks, in the order of the source: 0, or the error. */
  function HeaderCheck(r: Reply, index: nat, base: nat): (e: int)
    requires |r| == REPLY_SIZE
  {
    if B(r, 0) != MAGIC then -100
    else if NodeCount(r) > CHUNK_NODES then -101
    else if H(r, 6) != index then -102
    else if TotalNodes(r) > MAX_NODES then -103
    else if base + NodeCount(r) > TotalNodes(r) then -104
    else 0
  }

  /** A reply that extends a table of `base` nodes as chunk number `index`. */
  ghost predicate Genuine(r: Reply, index: nat, base: nat, seal: Seal) {
    && |r| == REPLY_SIZE
    && HeaderCheck(r, index, base) == 0
    && Sealed(r, seal)
    && AllFit(NodesOf(r, NodeCount(r)), base, NodeCount(r))
  }

  /** Corruption inside four consecutive bytes of the payload, the node count aside, never goes through. */
  lemma {:induction false} CorruptionRejected(r: Reply, s: Reply, lo: nat, hi: nat)
    requires |r| == |s| == REPLY_SIZE && NodeCount(r) <= CHUNK_NODES && (hi <= 8 || lo >= 10)
    requires lo <= hi <= lo + 4 && hi <= 14 + 8 * NodeCount(r)
    requires r[..lo] == s[..lo] && r[hi..] == s[hi..] && r != s
    requires Sealed(r, CrcSeal)
    ensures NodeCount(s) == NodeCount(r) && !Sealed(s, CrcSeal)
  {
    SameField(r, s, lo, hi, 8);
    BurstUnseals(r, s, lo, hi, 14 + 8 * NodeCount(r));
  }

  lemma {:induction false} BurstUnseals(r: Reply, s: Reply, lo: nat, hi: nat, pl: nat)
    requires lo <= hi <= lo + 4 && hi <= pl && pl + 4 <= |r| == |s|
    requires r[..lo] == s[..lo] && r[hi..] == s[hi..] && r != s && CrcSeal(r[..pl], r[pl..][..4])
    ensures !CrcSeal(s[..pl], s[pl..][..4])
  {
    BurstChanges(r, s, lo, hi, pl);
    SameTrailer(r, s, hi, pl);
  }

  /** A field the corruption does not reach. */
  lemma {:induction false} SameField(r: Reply, s: Reply, lo: nat, hi: nat, i: nat)
    requires lo <= hi <= |r| == |s| && r[..lo] == s[..lo] && r[hi..] == s[hi..]
    requires i + 1 < |r| && (hi <= i || lo >= i + 2)
    ensures H(r, i) == H(s, i)
  {
    if hi <= i {
      assert r[i] == r[hi..][i - hi] && r[i + 1] == r[hi..][i + 1 - hi];
      assert s[i] == s[hi..][i - hi] && s[i + 1] == s[hi..][i + 1 - hi];
    } else {
      assert r[i] == r[..lo][i] && r[i + 1] == r[..lo][i + 1];
      assert s[i] == s[..lo][i] && s[i + 1] == s[..lo][i + 1];
    }
  }

  lemma {:induction false} BurstChanges(r: Reply, s: Reply, lo: nat, hi: nat, pl: nat)
    requires lo <= hi <= lo + 4 && hi <= pl <= |r| == |s|
    requires r[..lo] == s[..lo] && r[hi..] == s[hi..] && r != s
    ensures Crc.Checksum(r[..pl]) != Crc.Checksum(s[..pl])
  {
    PayloadParts(r, lo, hi, pl);
    PayloadParts(s, lo, hi, pl);
    DiffersInside(r, s, lo, hi);
    assert r[hi..pl] == r[hi..][..pl - hi] && s[hi..pl] == s[hi..][..pl - hi];
    Crc.BurstDetected(r[..lo], r[lo..hi], s[lo..hi], r[hi..pl]);
  }

  lemma {:induction false} DiffersInside(r: Reply, s: Reply, lo: nat, hi: nat)
    requires lo <= hi <= |r| == |s| && r[..lo] == s[..lo] && r[hi..] == s[hi..] && r != s
    ensures r[lo..hi] != s[lo..hi]
  {
    assert r == r[..lo] + r[lo..hi] + r[hi..] && s == s[..lo] + s[lo..hi] + s[hi..];
  }

  lemma {:induction false} PayloadParts(r: Reply, lo: nat, hi: nat, pl: nat)
    requires lo <= hi <= pl <= |r|
    ensures r[..pl] == r[..lo] + r[lo..hi] + r[hi..pl]
  {
  }

  lemma {:induction false} SameTrailer(r: Reply, s: Reply, hi: nat, pl: nat)
    requires hi <= pl && pl + 4 <= |r| == |s| && r[hi..] == s[hi..]
    ensures r[pl..][..4] == s[pl..][..4]
  {
    assert r[pl..] == r[hi..][pl - hi..] && s[pl..] == s[hi..][pl - hi..];
  }

  /** The nodes of accepted chunks 0, 1, ... in order. */
  function Joined(rs: seq<Reply>): (ns: seq<Node>)
    requires forall i :: 0 <= i < |rs| ==> |rs[i]| == REPLY_SIZE && NodeCount(rs[i]) <= CHUNK_NODES
  {
    if rs == [] then [] else
      var r := rs[|rs| - 1];
      Joined(rs[..|rs| - 1]) + NodesOf(r, NodeCount(r))
  }

  /** Every chunk was checked against the nodes before it. */
  ghost predicate AllGenuine(rs: seq<Reply>, seal: Seal) {
    && (forall i :: 0 <= i < |rs| ==> |rs[i]| == REPLY_SIZE && NodeCount(rs[i]) <= CHUNK_NODES)
    && (rs != [] ==>
          AllGenuine(rs[..|rs| - 1], seal) && Genuine(rs[|rs| - 1], |rs| - 1, |Joined(rs[..|rs| - 1])|, seal))
  }

  lemma {:induction false} GenuineSnoc(rs: seq<Reply>, r: Reply, seal: Seal)
    requires AllGenuine(rs, seal) && Genuine(r, |rs|, |Joined(rs)|, seal)
    ensures AllGenuine(rs + [r], seal) && Joined(rs + [r]) == Joined(rs) + NodesOf(r, NodeCount(r))
  {
    assert (rs + [r])[..|rs|] == rs;
  }

  /**
   * A table of genuine chunks has known operations, parents at earlier slots and no more nodes than there is room for.
   */
  lemma {:induction false} GenuineTable(rs: seq<Reply>, seal: Seal)
    requires AllGenuine(rs, seal)
    ensures |Joined(rs)| <= MAX_NODES && AllFit(Joined(rs), 0, |Joined(rs)|) && Ordered(Joined(rs))
  {
    if rs != [] {
      var front, r := rs[..|rs| - 1], rs[|rs| - 1];
      GenuineTable(front, seal);
      var a, b := Joined(front), NodesOf(r, NodeCount(r));
      forall i | 0 <= i < |a + b|
        ensures Fit((a + b)[i], i)
      {
        assert i >= |a| ==> Fit(b[i - |a|], |a| + (i - |a|));
      }
    }
  }
}

/** The lists both sides derive from the table. */
module ChainLists {
  import opened ChainTable

  const MAX_PAIRS := 128

  /** The shipped slots among the first n nodes. */
  function Ships(t: seq<Node>, n: nat): (r: seq<nat>)
    requires n <= |t|
    ensures |r| <= n
  {
    if n == 0 then [] else Ships(t, n - 1) + if Shipped(t[n - 1]) then [n - 1] else []
  }

  /** Exactly the flagged slots, in increasing order. */
  lemma {:induction false} ShipsExactly(t: seq<Node>, n: nat)
    requires n <= |t|
    ensures forall k: nat :: k in Ships(t, n) <==> k < n && Shipped(t[k])
    ensures forall i, j :: 0 <= i < j < |Ships(t, n)| ==> Ships(t, n)[i] < Ships(t, n)[j]
  {
    if n > 0 {
      ShipsExactly(t, n - 1);
      forall i, j | 0 <= i < j < |Ships(t, n)|
        ensures Ships(t, n)[i] < Ships(t, n)[j]
      {
        assert Ships(t, n)[i] in Ships(t, n - 1);
      }
    }
  }

  /** A parent and which of its past values an edge asks for. */
  datatype Pair = Pair(node: nat, kind: nat)

  predicate Asks(n: Node) { Kind(n) != CURRENT && n.parent != NO_PARENT }

  function PairOf(n: Node): (p: Pair) { Pair(n.parent, Kind(n)) }

  /** Which edges ask for a past value, and for which one. */
  lemma {:induction false} AsksIs(n: Node)
    ensures Asks(n) <==> n.psize >= 64 && n.parent != 0xFFFF
    ensures PairOf(n) == Pair(n.parent, n.psize / 64)
  {
  }

  /** The distinct pairs of the first n nodes, in the order they are first met. */
  function Pairs(t: seq<Node>, n: nat): (r: seq<Pair>)
    requires n <= |t|
  {
    if n == 0 then []
    else
      var r := Pairs(t, n - 1);
      if Asks(t[n - 1]) && PairOf(t[n - 1]) !in r then r + [PairOf(t[n - 1])] else r
  }

  lemma {:induction false} PairsExactly(t: seq<Node>, n: nat)
    requires n <= |t|
    ensures forall p :: p in Pairs(t, n) <==> exists k :: 0 <= k < n && Asks(t[k]) && PairOf(t[k]) == p
    ensures forall i, j :: 0 <= i < j < |Pairs(t, n)| ==> Pairs(t, n)[i] != Pairs(t, n)[j]
  {
    if n > 0 {
      PairsExactly(t, n - 1);
      forall i, j | 0 <= i < j < |Pairs(t, n)|
        ensures Pairs(t, n)[i] != Pairs(t, n)[j]
      {
        assert Pairs(t, n)[i] in Pairs(t, n - 1);
      }
    }
  }

  /** Entry i was first met at some node, when the list held just the entries before it. */
  lemma {:induction false} PairsInOrder(t: seq<Node>, n: nat, i: nat) returns (k: nat)
    requires n <= |t| && i < |Pairs(t, n)|
    ensures k < n && Asks(t[k]) && PairOf(t[k]) == Pairs(t, n)[i] && Pairs(t, k) == Pairs(t, n)[..i]
  {
    if i < |Pairs(t, n - 1)| {
      k := PairsInOrder(t, n - 1, i);
    } else {
      k := n - 1;
    }
  }

  lemma {:induction false} PairsGrow(t: seq<Node>, m: nat, n: nat)
    requires m <= n <= |t|
    ensures Pairs(t, m) <= Pairs(t, n)
    decreases n
  {
    if m < n {
      PairsGrow(t, m, n - 1);
    }
  }

  /** The nodes of a pair are nodes of the table. */
  lemma {:induction false} PairsInTable(t: seq<Node>, n: nat, i: nat)
    requires Ordered(t) && n <= |t| && i < |Pairs(t, n)|
    ensures Pairs(t, n)[i].node < |t| && Pairs(t, n)[i].kind != CURRENT
  {
    var k := PairsInOrder(t, n, i);
  }
}

module ChainFetch {
  import opened Bytes
  import opened ChainTable
  import opened ChainChunk
  import opened ChainLists
  import Crc

  const ATTEMPTS := 3
  const MAX_CHUNKS := 7

  /** What one request brings: a link error, or a response. */
  datatype Answer = Failed(code: int) | Got(reply: Reply)

  /** The link's answer to every attempt at every chunk. */
  type Link = (nat, nat) -> Answer

  ghost predicate Sane(link: Link) {
    forall i, a :: match link(i, a) case Failed(code) => code < 0 case Got(r) => |r| == REPLY_SIZE
  }

  ghost predicate Accepted(a: Answer, index: nat, base: nat, seal: Seal) {
    a.Got? && Genuine(a.reply, index, base, seal)
  }

  /** A genuine chunk stands behind the nodes accepted before. */
  ghost predicate Added(nodes: seq<Node>, front: seq<Node>, index: nat, base: nat, after: nat, r: Reply, ret: int,
                        seal: Seal) {
    && Genuine(r, index, base, seal)
    && after == base + NodeCount(r) <= |nodes|
    && nodes[..after] == front + NodesOf(r, NodeCount(r))
    && ret == (if Last(r) then 1 else 0)
  }

  ghost predicate IsCrc(seal: Seal) { forall p, t {:trigger CrcSeal(p, t)} :: seal(p, t) == CrcSeal(p, t) }

  lemma {:induction false} CrcIs(seal: Seal, p: seq<bv8>, t: seq<bv8>)
    requires IsCrc(seal)
    ensures seal(p, t) == CrcSeal(p, t)
  {
  }

  /** The reply came at attempt a, and no earlier one was acceptable. */
  ghost predicate FirstAt(link: Link, index: nat, base: nat, r: Reply, seal: Seal, a: nat) {
    a < ATTEMPTS && link(index, a) == Got(r) && forall b :: 0 <= b < a ==> !Accepted(link(index, b), index, base, seal)
  }

  ghost predicate First(link: Link, index: nat, base: nat, r: Reply, seal: Seal) {
    exists a: nat :: FirstAt(link, index, base, r, seal, a)
  }

  /**
   * The chunks are the first acceptable answers, one index after the other; only the last of them may say it is the
   * last.
   */
  ghost predicate Sequence(link: Link, chunks: seq<Reply>, seal: Seal) {
    && AllGenuine(chunks, seal)
    && (chunks != [] ==>
          var front := chunks[..|chunks| - 1];
          && Sequence(link, front, seal)
          && (front != [] ==> !Last(front[|front| - 1]))
          && First(link, |front|, |Joined(front)|, chunks[|chunks| - 1], seal))
  }

  lemma {:induction false} SequenceSnoc(link: Link, chunks: seq<Reply>, r: Reply, seal: Seal)
    requires Sequence(link, chunks, seal) && Genuine(r, |chunks|, |Joined(chunks)|, seal)
    requires (chunks != [] ==> !Last(chunks[|chunks| - 1])) && First(link, |chunks|, |Joined(chunks)|, r, seal)
    ensures Sequence(link, chunks + [r], seal) && Joined(chunks + [r]) == Joined(chunks) + NodesOf(r, NodeCount(r))
  {
    GenuineSnoc(chunks, r, seal);
    assert (chunks + [r])[..|chunks|] == chunks;
  }

  /** No attempt at this chunk was acceptable. */
  ghost predicate Lost(link: Link, index: nat, base: nat, seal: Seal) {
    forall a :: 0 <= a < ATTEMPTS ==> !Accepted(link(index, a), index, base, seal)
  }

  ghost predicate Ended(chunks: seq<Reply>) {
    chunks != [] && |chunks[|chunks| - 1]| == REPLY_SIZE && Last(chunks[|chunks| - 1])
  }

  /** What the fetch has so far; it fails only when no attempt at the next chunk is acceptable. */
  ghost predicate Fetched(link: Link, chunks: seq<Reply>, base: nat, ok: bool, seal: Seal) {
    && Sequence(link, chunks, seal) && base == |Joined(chunks)|
    && (!ok ==> |chunks| < MAX_CHUNKS && !Ended(chunks) && Lost(link, |chunks|, base, seal))
  }

  class Table {
    const nodes: array<Node>
    var count: nat
    const ship: array<nat>
    var shipped: nat
    const pairs: array<Pair>
    var pairCount: nat

    /** The checksum: CRC-32. */
    ghost const seal: Seal

    ghost predicate Shaped() {
      nodes.Length == MAX_NODES && ship.Length == MAX_NODES && pairs.Length == MAX_PAIRS && IsCrc(seal)
    }

    constructor ()
      ensures Shaped() && count == 0 && shipped == 0 && pairCount == 0 && fresh(nodes) && fresh(ship) && fresh(pairs)
    {
      nodes := new Node[MAX_NODES](_ => Node(0, 0, 0, 0));
      ship := new nat[MAX_NODES](_ => 0);
      pairs := new Pair[MAX_PAIRS](_ => Pair(0, 0));
      seal := CrcSeal;
      count, shipped, pairCount := 0, 0, 0;
    }

    /** ra_fetch_chain_chunk: one attempt. What was accepted before is untouched, whatever the answer. */
    method FetchChunk(index: nat, base: nat, answer: Answer, ghost front: seq<Node>) returns (ret: int, after: nat)
      requires Shaped() && base <= MAX_NODES && nodes[..base] == front
      requires match answer case Failed(code) => code < 0 case Got(r) => |r| == REPLY_SIZE
      modifies nodes
      ensures nodes[..base] == front
      ensures ret < 0 ==> after == base && !Accepted(answer, index, base, seal)
      ensures ret >= 0 ==> answer.Got? && Added(nodes[..], front, index, base, after, answer.reply, ret, seal)
    {
      after := base;
      match answer
      case Failed(code) => ret := code;
      case Got(r) =>
        ret := HeaderCheck(r, index, base);
        if ret == 0 {
          var n := NodeCount(r);
          var intact := CheckSum(r);
          if !intact {
            ret := -107;
          } else {
            ret := Install(r, n, base);
            if ret == 0 {
              after := base + n;
              ret := if Last(r) then 1 else 0;
            }
          }
        }
    }

    method CheckSum(r: Reply) returns (intact: bool)
      requires IsCrc(seal) && |r| == REPLY_SIZE && NodeCount(r) <= CHUNK_NODES
      ensures intact == Sealed(r, seal)
    {
      var pl := 14 + 8 * NodeCount(r);
      var crc := Crc.Crc32(r[..pl]);
      var t := r[pl..][..4];
      CrcIs(seal, r[..pl], t);
      intact := crc == TrailerWord(t[0], t[1], t[2], t[3]);
    }

    /** Copy behind the accepted nodes, then check what arrived. */
    method Install(r: Reply, n: nat, base: nat) returns (e: int)
      requires Shaped() && |r| == REPLY_SIZE && n <= CHUNK_NODES && base + n <= MAX_NODES
      modifies nodes
      ensures nodes[..base + n] == old(nodes[..base]) + NodesOf(r, n) && nodes[..base] == old(nodes[..base])
      ensures e <= 0 && (e == 0 <==> AllFit(NodesOf(r, n), base, n))
    {
      CopyNodes(r, n, base);
      assert nodes[base..base + n] == nodes[..base + n][base..] == NodesOf(r, n);
      assert nodes[..base] == nodes[..base + n][..base];
      e := Validate(base, n);
    }

    method CopyNodes(r: Reply, n: nat, base: nat)
      requires Shaped() && |r| == REPLY_SIZE && n <= CHUNK_NODES && base + n <= MAX_NODES
      modifies nodes
      ensures nodes[..base + n] == old(nodes[..base]) + NodesOf(r, n)
    {
      forall k | 0 <= k < n {
        nodes[base + k] := NodeAt(r, 14 + 8 * k);
      }
      forall k | 0 <= k < n
        ensures nodes[base + k] == NodesOf(r, n)[k]
      {
        NodesOfAt(r, n, k);
      }
      assert nodes[..base + n] == old(nodes[..base]) + NodesOf(r, n);
    }

    /** Parents at earlier slots, operations known. */
    method Validate(base: nat, n: nat) returns (e: int)
      requires Shaped() && base + n <= MAX_NODES
      ensures e <= 0 && (e == 0 <==> AllFit(nodes[base..base + n], base, n))
    {
      e := 0;
      var i := 0;
      while i < n && e == 0
        invariant i <= n && e <= 0 && (e == 0 <==> AllFit(nodes[base..base + n], base, i))
        invariant e != 0 ==> i <= n && !AllFit(nodes[base..base + n], base, n)
        decreases n - i, e == 0
      {
        var node := nodes[base + i];
        assert node == nodes[base..base + n][i];
        if node.parent != NO_PARENT && node.parent >= base + i {
          e := -105;
        } else if !KnownOp(Op(node)) {
          e := -106;
        }
        i := i + 1;
      }
    }

    /** Up to three attempts at one chunk; a failed one leaves nothing behind that counts. */
    method FetchRetrying(index: nat, base: nat, link: Link, ghost front: seq<Node>)
      returns (ret: int, after: nat, ghost reply: Reply)
      requires Shaped() && base <= MAX_NODES && Sane(link) && nodes[..base] == front
      modifies nodes
      ensures ret < 0 ==> after == base && nodes[..base] == front && Lost(link, index, base, seal)
      ensures ret >= 0 ==>
        First(link, index, base, reply, seal) && Added(nodes[..], front, index, base, after, reply, ret, seal)
    {
      ret, after, reply := -1, base, [];
      var a := 0;
      while a < ATTEMPTS && ret < 0
        invariant a <= ATTEMPTS
        invariant ret < 0 ==>
          && after == base && nodes[..base] == front
          && forall b :: 0 <= b < a ==> !Accepted(link(index, b), index, base, seal)
        invariant ret >= 0 ==>
          First(link, index, base, reply, seal) && Added(nodes[..], front, index, base, after, reply, ret, seal)
      {
        var answer := link(index, a);
        assert forall b :: 0 <= b < a ==> !Accepted(link(index, b), index, base, seal);
        ret, after := FetchChunk(index, base, answer, front);
        if ret >= 0 {
          reply := answer.reply;
          assert First(link, index, base, reply, seal) by { assert FirstAt(link, index, base, reply, seal, a); }
        }
        a := a + 1;
      }
    }

    /** The chunk loop: the accepted nodes are the genuine chunks, in order; it fails only when a chunk is lost. */
    method FetchNodes(link: Link) returns (ok: bool, base: nat, ghost chunks: seq<Reply>)
      requires Shaped() && Sane(link)
      modifies nodes
      ensures Fetched(link, chunks, base, ok, seal) && base <= MAX_NODES && nodes[..base] == Joined(chunks)
      ensures ok ==> Ended(chunks) || |chunks| == MAX_CHUNKS
    {
      ok, base, chunks := true, 0, [];
      var index, more := 0, true;
      while index < MAX_CHUNKS && ok && more
        invariant Fetched(link, chunks, base, ok, seal)
        invariant index <= MAX_CHUNKS && base <= MAX_NODES && nodes[..base] == Joined(chunks)
        invariant ok && more ==> index == |chunks| && !Ended(chunks)
        invariant ok && !more ==> Ended(chunks)
        decreases MAX_CHUNKS - index, ok, more
      {
        ok, base, more, chunks := FetchNext(link, index, base, chunks);
        if ok && more {
          index := index + 1;
        }
      }
    }

    /** The next chunk, if any attempt brings it. */
    method FetchNext(link: Link, index: nat, base: nat, ghost chunks: seq<Reply>)
      returns (ok: bool, after: nat, more: bool, ghost longer: seq<Reply>)
      requires Shaped() && Sane(link) && Fetched(link, chunks, base, true, seal)
      requires base <= MAX_NODES && nodes[..base] == Joined(chunks) && !Ended(chunks) && index == |chunks| < MAX_CHUNKS
      modifies nodes
      ensures Fetched(link, longer, after, ok, seal)
      ensures after <= MAX_NODES && nodes[..after] == Joined(longer)
      ensures ok ==> |longer| == index + 1 && more == !Ended(longer)
    {
      ghost var reply;
      var ret;
      ret, after, reply := FetchRetrying(index, base, link, Joined(chunks));
      ok, more, longer := ret >= 0, ret == 0, chunks;
      if ok {
        SequenceSnoc(link, chunks, reply, seal);
        longer := chunks + [reply];
      }
    }

    /** The ship list: the flagged slots in order. */
    method BuildShips(n: nat)
      requires Shaped() && n <= MAX_NODES
      modifies this`shipped, ship
      ensures shipped <= n && ship[..shipped] == Ships(nodes[..n], n)
    {
      ghost var t := nodes[..n];
      shipped := 0;
      var i := 0;
      while i < n
        invariant i <= n && shipped <= i && ship[..shipped] == Ships(t, i)
      {
        if Shipped(nodes[i]) {
          ship[shipped] := i;
          SliceSnoc(ship[..], 0, shipped);
          shipped := shipped + 1;
        }
        i := i + 1;
      }
    }

    /** Is the pair already listed? */
    method Listed(p: Pair) returns (found: bool)
      requires Shaped() && pairCount <= MAX_PAIRS
      ensures found == (p in pairs[..pairCount])
    {
      var j := 0;
      while j < pairCount && pairs[j] != p
        invariant j <= pairCount && p !in pairs[..j]
      {
        SliceSnoc(pairs[..], 0, j);
        j := j + 1;
      }
      found := j < pairCount;
      if found {
        assert pairs[..pairCount][j] == p;
      }
    }

    /** The verification list: distinct pairs in table order; too many of them, and the table is refused. */
    method BuildPairs(n: nat) returns (ok: bool)
      requires Shaped() && n <= MAX_NODES
      modifies this`pairCount, pairs
      ensures ok == (|Pairs(nodes[..n], n)| <= MAX_PAIRS)
      ensures ok ==> pairCount <= MAX_PAIRS && pairs[..pairCount] == Pairs(nodes[..n], n)
    {
      ghost var t := nodes[..n];
      ok, pairCount := true, 0;
      var i := 0;
      while i < n && ok
        invariant i <= n && pairCount <= MAX_PAIRS
        invariant ok ==> pairs[..pairCount] == Pairs(t, i)
        invariant !ok ==> |Pairs(t, i)| > MAX_PAIRS
        decreases n - i, ok
      {
        var node := nodes[i];
        i := i + 1;
        if Asks(node) {
          var found := Listed(PairOf(node));
          if !found {
            if pairCount >= MAX_PAIRS {
              ok := false;
            } else {
              pairs[pairCount] := PairOf(node);
              SliceSnoc(pairs[..], 0, pairCount);
              pairCount := pairCount + 1;
            }
          }
        }
      }
      PairsGrow(t, i, n);
    }

    /** ra_fetch_chain_table: the table is in use exactly when every chunk came through and its pairs fit. */
    method Fetch(link: Link) returns (on: bool, ghost came: bool, ghost chunks: seq<Reply>)
      requires Shaped() && Sane(link)
      modifies this`count, this`shipped, this`pairCount, nodes, ship, pairs
      ensures Sequence(link, chunks, seal) && Fetched(link, chunks, |Joined(chunks)|, came, seal)
      ensures came ==> Ended(chunks) || |chunks| == MAX_CHUNKS
      ensures on == (came && |Pairs(Joined(chunks), |Joined(chunks)|)| <= MAX_PAIRS)
      ensures on ==> InUse(Joined(chunks))
      ensures !on ==> count == 0 && shipped == 0
    {
      count, shipped := 0, 0;
      var ok, base;
      ok, base, chunks := FetchNodes(link);
      came, on := ok, false;
      if ok {
        assert nodes[..base] == Joined(chunks);
        BuildShips(base);
        on := BuildPairs(base);
        if on {
          count := base;
          GenuineTable(chunks, seal);
        } else {
          count, shipped, pairCount := 0, 0, 0;
        }
      }
    }

    /** The table t is loaded, with its two lists. */
    ghost predicate InUse(t: seq<Node>)
      reads this, nodes, ship, pairs
    {
      && Shaped() && count <= MAX_NODES && shipped <= MAX_NODES && pairCount <= MAX_PAIRS
      && nodes[..count] == t && Ordered(t) && AllFit(t, 0, |t|)
      && ship[..shipped] == Ships(t, |t|)
      && pairs[..pairCount] == Pairs(t, |t|)
    }
  }
}
