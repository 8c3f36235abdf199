/** The rotating window of chain values under the transmit budget. */
module SnapWindow {
  const MAX_SLOTS := 3072
  const MAX_ADDRS := 6144
  const MAX_PAIRS := 128
  const BUDGET := 8191
  const HEADER_SIZE := 20

  /** Read widths of the shipped slots. */
  predicate Widths(w: seq<nat>) { |w| <= MAX_SLOTS && forall i :: 0 <= i < |w| ==> 1 <= w[i] <= 4 }

  /** As many bytes as n bits take. */
  function BitmapSize(n: nat): (r: nat)
    ensures n <= 8 * r < n + 8
  {
    (n + 7) / 8
  }

  /** What the other sections leave for the window. */
  function Room(count: nat, pairs: nat): (avail: nat)
    requires count <= MAX_ADDRS && pairs <= MAX_PAIRS
    ensures avail >= 1499
    ensures HEADER_SIZE + count + avail + 4 * pairs + BitmapSize(pairs) == BUDGET
  {
    BUDGET - HEADER_SIZE - count - pairs * 4 - BitmapSize(pairs)
  }

  /** Bytes of the slots [lo, hi). */
  function Weight(w: seq<nat>, lo: nat, hi: nat): (r: nat)
    requires lo <= hi <= |w|
    decreases hi - lo
  {
    if lo == hi then 0 else Weight(w, lo, hi - 1) + w[hi - 1]
  }

  predicate FitsIn(w: seq<nat>, lo: nat, hi: nat, avail: nat)
    requires lo <= hi <= |w|
  {
    BitmapSize(hi - lo) + Weight(w, lo, hi) <= avail
  }

  /** The window that starts at lo: as many slots as fit. */
  function WindowEnd(w: seq<nat>, lo: nat, hi: nat, avail: nat): (e: nat)
    requires lo <= hi <= |w|
    ensures hi <= e <= |w|
    decreases |w| - hi
  {
    if hi < |w| && FitsIn(w, lo, hi + 1, avail) then WindowEnd(w, lo, hi + 1, avail) else hi
  }

  /** The window fits, and could not be longer. */
  lemma {:induction false} WindowIsGreatest(w: seq<nat>, lo: nat, hi: nat, avail: nat)
    requires lo <= hi <= |w| && FitsIn(w, lo, hi, avail)
    ensures var e := WindowEnd(w, lo, hi, avail);
            FitsIn(w, lo, e, avail) && (e < |w| ==> !FitsIn(w, lo, e + 1, avail))
    decreases |w| - hi
  {
    if hi < |w| && FitsIn(w, lo, hi + 1, avail) {
      WindowIsGreatest(w, lo, hi + 1, avail);
    }
  }

  lemma {:induction false} WeightBound(w: seq<nat>, lo: nat, hi: nat)
    requires Widths(w) && lo <= hi <= |w|
    ensures hi - lo <= Weight(w, lo, hi) <= 4 * (hi - lo)
    decreases hi - lo
  {
    if lo < hi {
      WeightBound(w, lo, hi - 1);
    }
  }

  /** A window that stops short of the end holds at least 363 slots. */
  lemma {:induction false} WindowIsLong(w: seq<nat>, lo: nat, avail: nat)
    requires Widths(w) && lo <= |w| && avail >= 1499
    ensures var e := WindowEnd(w, lo, lo, avail);
            (e < |w| ==> e >= lo + 363) && FitsIn(w, lo, e, avail)
  {
    WindowIsGreatest(w, lo, lo, avail);
    var e := WindowEnd(w, lo, lo, avail);
    if e < |w| {
      WeightBound(w, lo, e + 1);
    }
  }

  /** Where the next window starts. */
  function Next(w: seq<nat>, lo: nat, avail: nat): (r: nat)
    requires lo <= |w|
    ensures r < |w| || r == 0
  {
    var e := WindowEnd(w, lo, lo, avail);
    if e >= |w| then 0 else e
  }

  /** The start of snapshot k's window; `avail` gives each snapshot's room. */
  function Start(w: seq<nat>, avail: nat -> nat, k: nat): (r: nat)
    ensures r < |w| || r == 0
  {
    if k == 0 then 0 else Next(w, Start(w, avail, k - 1), avail(k - 1))
  }

  function End(w: seq<nat>, avail: nat -> nat, k: nat): (r: nat)
    ensures Start(w, avail, k) <= r <= |w|
  {
    WindowEnd(w, Start(w, avail, k), Start(w, avail, k), avail(k))
  }

  /** No window before snapshot m reached the end. */
  ghost predicate Going(w: seq<nat>, avail: nat -> nat, m: nat) {
    forall k: nat :: k < m ==> End(w, avail, k) < |w|
  }

  lemma {:induction false} GoingFar(w: seq<nat>, avail: nat -> nat, m: nat)
    requires Widths(w) && (forall k: nat :: avail(k) >= 1499) && Going(w, avail, m)
    ensures Start(w, avail, m) >= 363 * m
    ensures m > 0 ==> Start(w, avail, m) == End(w, avail, m - 1)
  {
    if m > 0 {
      GoingFar(w, avail, m - 1);
      assert End(w, avail, m - 1) < |w|;
      WindowIsLong(w, Start(w, avail, m - 1), avail(m - 1));
    }
  }

  /** Slot j is in the window of snapshot k. */
  predicate Shown(w: seq<nat>, avail: nat -> nat, k: nat, j: nat) {
    Start(w, avail, k) <= j < End(w, avail, k)
  }

  /** The windows of a round: snapshots 0 to m - 1, one behind the other, up to the last slot. */
  ghost predicate Round(w: seq<nat>, avail: nat -> nat, m: nat) {
    && m > 0 && Going(w, avail, m - 1) && End(w, avail, m - 1) == |w|
  }

  /** Before the cursor returns to 0, within nine snapshots, whatever the budgets, every slot was sent. */
  lemma {:induction false} RoundEnds(w: seq<nat>, avail: nat -> nat) returns (m: nat)
    requires Widths(w) && forall k: nat :: avail(k) >= 1499
    ensures 1 <= m <= 9 && Round(w, avail, m) && Start(w, avail, m) == 0
  {
    m := 1;
    while End(w, avail, m - 1) < |w|
      invariant 1 <= m <= 9 && Going(w, avail, m - 1)
      decreases 9 - m
    {
      assert Going(w, avail, m);
      GoingFar(w, avail, m);
      m := m + 1;
    }
  }

  lemma {:induction false} StartsGrow(w: seq<nat>, avail: nat -> nat, m: nat, i: nat, k: nat)
    requires Going(w, avail, m) && i < k <= m
    ensures End(w, avail, i) <= Start(w, avail, k)
    decreases k
  {
    assert End(w, avail, k - 1) < |w|;
    if i < k - 1 {
      StartsGrow(w, avail, m, i, k - 1);
    }
  }

  /** Every slot is sent in exactly one snapshot of a round. */
  lemma {:induction false} ShownOnce(w: seq<nat>, avail: nat -> nat, m: nat, j: nat) returns (k: nat)
    requires Round(w, avail, m) && j < |w|
    ensures k < m && Shown(w, avail, k, j)
    ensures forall i: nat :: i < m && Shown(w, avail, i, j) ==> i == k
  {
    k := 0;
    while End(w, avail, k) <= j
      invariant k < m && Start(w, avail, k) <= j
      decreases m - k
    {
      assert End(w, avail, k) < |w|;
      k := k + 1;
    }
    forall i: nat | i < m && Shown(w, avail, i, j)
      ensures i == k
    {
      if i < k {
        StartsGrow(w, avail, m - 1, i, k);
      } else if k < i {
        StartsGrow(w, avail, m - 1, k, i);
      }
    }
  }
}

/** The packet: header, flat values, validity bitmap, leaf values, history values, history bitmap. */
module SnapPacket {
  import opened Options
  import opened Bytes
  import opened ChainTable
  import opened SnapWindow
  import opened ChainMeaning

  /** A snapshot as the receiver reads it. */
  datatype Snap = Snap(
    frame: u32, seqno: nat, flat: seq<byte>,
    first: nat, valid: seq<bool>, leaves: seq<nat>,
    history: seq<u32>, resolved: seq<bool>)

  predicate LeavesFit(leaves: seq<nat>, w: seq<nat>, first: nat)
    requires first + |leaves| <= |w|
  {
    forall i :: 0 <= i < |leaves| ==> leaves[i] < Scale(w[first + i])
  }

  /** Fields fit their wire form, leaves fit their widths. */
  predicate Sendable(s: Snap, w: seq<nat>) {
    && Widths(w) && s.seqno < 0x1_0000 && |s.flat| <= MAX_ADDRS
    && |s.valid| == |s.leaves| && s.first + |s.leaves| <= |w|
    && LeavesFit(s.leaves, w, s.first)
    && |s.history| == |s.resolved| <= MAX_PAIRS
    && FitsIn(w, s.first, s.first + |s.leaves|, Room(|s.flat|, |s.history|))
  }

  /** Two base-256 digits. */
  function Pair(hi: nat, lo: nat): (v: nat) { 0x100 * hi + lo }

  function Be16(v: nat): (r: seq<byte>)
    requires v < 0x1_0000
    ensures |r| == 2 && Pair(r[0], r[1]) == v
  {
    [v / 0x100, v % 0x100]
  }

  function Be32(v: u32): (r: seq<byte>)
    ensures |r| == 4
    ensures Pair(r[0], r[1]) * 0x1_0000 + Pair(r[2], r[3]) == v
  {
    Be16(v / 0x1_0000) + Be16(v % 0x1_0000)
  }

  /** Numbers of two and four bytes are big-endian. */
  lemma {:induction false} BeIsBig(v: u32)
    ensures v < 0x1_0000 ==> BigEndian(Be16(v)) == v
    ensures BigEndian(Be32(v)) == v
  {
    if v < 0x1_0000 {
      BigPair(Be16(v));
    }
    var hi, lo := Be16(v / 0x1_0000), Be16(v % 0x1_0000);
    BigPair(hi);
    BigPair(lo);
    assert Be32(v)[..2] == hi && Be32(v)[2..] == lo;
    BigWord(Be32(v));
  }

  /** The w low bytes of v, lowest first. */
  function Le(v: nat, w: nat): (r: seq<byte>)
    ensures |r| == w
  {
    if w == 0 then [] else [v % 0x100] + Le(v / 0x100, w - 1)
  }

  lemma {:induction false} LeReads(v: nat, w: nat)
    requires v < Scale(w)
    ensures LittleEndian(Le(v, w)) == v
  {
    if w > 0 {
      LeReads(v / 0x100, w - 1);
      assert Le(v, w)[1..] == Le(v / 0x100, w - 1);
    }
  }

  /** A cleared bitmap for these bits with the first k of them entered. */
  function Marks(bits: seq<bool>, k: nat): (r: seq<byte>)
    requires k <= |bits|
    ensures |r| == BitmapSize(|bits|)
  {
    if k == 0 then Zeros(BitmapSize(|bits|))
    else if bits[k - 1] then SetBit(Marks(bits, k - 1), k - 1, true)
    else Marks(bits, k - 1)
  }

  lemma {:induction false} MarksRead(bits: seq<bool>, k: nat, j: nat)
    requires k <= |bits| && j < |bits|
    ensures Bit(Marks(bits, k), j) == (j < k && bits[j])
  {
    if k == 0 {
      NoBit(j % 8);
    } else {
      MarksRead(bits, k - 1, j);
    }
  }

  function Unmark(bm: seq<byte>, n: nat): (bits: seq<bool>)
    requires n <= 8 * |bm|
    ensures |bits| == n
  {
    if n == 0 then [] else Unmark(bm, n - 1) + [Bit(bm, n - 1)]
  }

  lemma {:induction false} UnmarkMarks(bits: seq<bool>, n: nat)
    requires n <= |bits|
    ensures Unmark(Marks(bits, |bits|), n) == bits[..n]
  {
    if n > 0 {
      UnmarkMarks(bits, n - 1);
      MarksRead(bits, |bits|, n - 1);
    }
  }

  /** The first n leaves, each in its own width. */
  function Blob(w: seq<nat>, first: nat, leaves: seq<nat>, n: nat): (r: seq<byte>)
    requires n <= |leaves| && first + n <= |w|
    ensures |r| == Weight(w, first, first + n)
  {
    if n == 0 then [] else Blob(w, first, leaves, n - 1) + Le(leaves[n - 1], w[first + n - 1])
  }

  /** The leaves in a blob, by the widths of the table. */
  function Unblob(w: seq<nat>, first: nat, blob: seq<byte>, n: nat): (leaves: seq<nat>)
    requires first + n <= |w| && Weight(w, first, first + n) <= |blob|
    ensures |leaves| == n
  {
    if n == 0 then []
    else
      var at := Weight(w, first, first + n - 1);
      Unblob(w, first, blob, n - 1) + [LittleEndian(blob[at..at + w[first + n - 1]])]
  }

  lemma {:induction false} UnblobLonger(w: seq<nat>, first: nat, a: seq<byte>, b: seq<byte>, n: nat)
    requires first + n <= |w| && Weight(w, first, first + n) <= |a|
    ensures Unblob(w, first, a + b, n) == Unblob(w, first, a, n)
  {
    if n > 0 {
      UnblobLonger(w, first, a, b, n - 1);
      var at, to := Weight(w, first, first + n - 1), Weight(w, first, first + n);
      assert (a + b)[at..to] == a[at..to];
    }
  }

  lemma {:induction false} UnblobBlob(w: seq<nat>, first: nat, leaves: seq<nat>, n: nat)
    requires n <= |leaves| && first + n <= |w| && forall i :: 0 <= i < n ==> leaves[i] < Scale(w[first + i])
    ensures Unblob(w, first, Blob(w, first, leaves, n), n) == leaves[..n]
  {
    if n > 0 {
      UnblobBlob(w, first, leaves, n - 1);
      LeReads(leaves[n - 1], w[first + n - 1]);
      UnblobStep(w, first, Blob(w, first, leaves, n - 1), Le(leaves[n - 1], w[first + n - 1]), n);
      assert leaves[..n] == leaves[..n - 1] + [leaves[n - 1]];
    }
  }

  /** One leaf more behind a blob. */
  lemma {:induction false} UnblobStep(w: seq<nat>, first: nat, front: seq<byte>, last: seq<byte>, n: nat)
    requires 0 < n && first + n <= |w|
    requires |front| == Weight(w, first, first + n - 1) && |last| == w[first + n - 1]
    ensures Unblob(w, first, front + last, n) == Unblob(w, first, front, n - 1) + [LittleEndian(last)]
  {
    UnblobLonger(w, first, front, last, n - 1);
    assert (front + last)[|front|..|front| + |last|] == last;
  }

  /** The first n history values. */
  function Past(history: seq<u32>, n: nat): (r: seq<byte>)
    requires n <= |history|
    ensures |r| == 4 * n
  {
    if n == 0 then [] else Past(history, n - 1) + Be32(history[n - 1])
  }

  function H(p: seq<byte>, i: nat): (v: nat)
    requires i + 1 < |p|
    ensures v < 0x1_0000
  {
    Pair(p[i], p[i + 1])
  }

  function W(p: seq<byte>, i: nat): (v: u32)
    requires i + 3 < |p|
  {
    Pair(p[i], p[i + 1]) * 0x1_0000 + Pair(p[i + 2], p[i + 3])
  }

  function Unpast(p: seq<byte>, n: nat): (r: seq<u32>)
    requires 4 * n <= |p|
    ensures |r| == n
  {
    if n == 0 then [] else Unpast(p, n - 1) + [W(p, 4 * (n - 1))]
  }

  lemma {:induction false} UnpastLonger(a: seq<byte>, b: seq<byte>, n: nat)
    requires 4 * n <= |a|
    ensures Unpast(a + b, n) == Unpast(a, n)
  {
    if n > 0 {
      UnpastLonger(a, b, n - 1);
    }
  }

  lemma {:induction false} UnpastPast(history: seq<u32>, n: nat)
    requires n <= |history|
    ensures Unpast(Past(history, n), n) == history[..n]
  {
    if n > 0 {
      UnpastPast(history, n - 1);
      UnpastLonger(Past(history, n - 1), Be32(history[n - 1]), n - 1);
    }
  }

  function BodySize(s: Snap, w: seq<nat>): (n: nat)
    requires Sendable(s, w)
    ensures HEADER_SIZE + n <= BUDGET
  {
    |s.flat| + BitmapSize(|s.leaves|) + Weight(w, s.first, s.first + |s.leaves|)
    + 4 * |s.history| + BitmapSize(|s.history|)
  }

  /** The sections behind the header. */
  function Body(s: Snap, w: seq<nat>): (r: seq<byte>)
    requires Sendable(s, w)
    ensures |r| == BodySize(s, w)
  {
    s.flat + Marks(s.valid, |s.valid|) + Blob(w, s.first, s.leaves, |s.leaves|)
    + Past(s.history, |s.history|) + Marks(s.resolved, |s.resolved|)
  }

  function Header(s: Snap, blob: nat, size: nat): (r: seq<byte>)
    requires s.seqno < 0x1_0000 && |s.flat| < 0x1_0000 && s.first < 0x1_0000 && |s.leaves| < 0x1_0000
    requires |s.history| < 0x1_0000
    requires blob < 0x1_0000 && size < 0x1_0000
    ensures |r| == HEADER_SIZE
  {
    [0x52, 0x03, Be16(size)[0], Be16(size)[1],
     Be32(s.frame)[0], Be32(s.frame)[1], Be32(s.frame)[2], Be32(s.frame)[3],
     Be16(|s.flat|)[0], Be16(|s.flat|)[1], Be16(s.seqno)[0], Be16(s.seqno)[1],
     Be16(s.first)[0], Be16(s.first)[1], Be16(|s.leaves|)[0], Be16(|s.leaves|)[1],
     Be16(blob)[0], Be16(blob)[1], Be16(|s.history|)[0], Be16(|s.history|)[1]]
  }

  /** The packet; it never exceeds the budget. */
  function Encode(s: Snap, w: seq<nat>): (p: seq<byte>)
    requires Sendable(s, w)
    ensures |p| == HEADER_SIZE + BodySize(s, w) <= BUDGET
  {
    WeightBound(w, s.first, s.first + |s.leaves|);
    Header(s, Weight(w, s.first, s.first + |s.leaves|), 16 + BodySize(s, w)) + Body(s, w)
  }

  /** The documented layout, read with the widths of the same table. */
  function Decode(p: seq<byte>, w: seq<nat>): (r: Option<Snap>) {
    if |p| < HEADER_SIZE || p[0] != 0x52 || p[1] != 0x03 || H(p, 2) + 4 != |p| then None
    else
      Read(p, w, W(p, 4), H(p, 10), H(p, 8), H(p, 12), H(p, 14), H(p, 16), H(p, 18))
  }

  /** The sections of a packet whose header says this. */
  function Read(p: seq<byte>, w: seq<nat>, frame: u32, seqno: nat, count: nat, first: nat, n: nat, blob: nat,
                pairs: nat): (r: Option<Snap>) {
    var a := HEADER_SIZE + count;
    var b := a + BitmapSize(n);
    var c := b + blob;
    var d := c + 4 * pairs;
    if first + n > |w| || Weight(w, first, first + n) != blob || d + BitmapSize(pairs) != |p| then None
    else
      Some(Snap(frame, seqno, p[HEADER_SIZE..a], first, Unmark(p[a..b], n), Unblob(w, first, p[b..c], n),
                Unpast(p[c..d], pairs), Unmark(p[d..], pairs)))
  }

  lemma {:induction false} HeaderReads(s: Snap, blob: nat, size: nat, body: seq<byte>)
    requires s.seqno < 0x1_0000 && |s.flat| < 0x1_0000 && s.first < 0x1_0000 && |s.leaves| < 0x1_0000
    requires |s.history| < 0x1_0000
    requires blob < 0x1_0000 && size < 0x1_0000
    ensures var p := Header(s, blob, size) + body;
            && p[0] == 0x52 && p[1] == 0x03 && H(p, 2) == size && W(p, 4) == s.frame
            && H(p, 8) == |s.flat| && H(p, 10) == s.seqno && H(p, 12) == s.first && H(p, 14) == |s.leaves|
            && H(p, 16) == blob && H(p, 18) == |s.history|
  {
    var p := Header(s, blob, size) + body;
    assert p[..HEADER_SIZE] == Header(s, blob, size);
  }

  lemma {:induction false} Cut(pre: seq<byte>, mid: seq<byte>, post: seq<byte>)
    ensures (pre + mid + post)[|pre|..|pre| + |mid|] == mid
  {
  }

  lemma {:induction false} Nested(a: seq<byte>, b: seq<byte>, c: seq<byte>)
    ensures a + b + c == a + (b + c)
  {
  }

  /** The front of what follows a prefix, and what follows that. */
  lemma {:induction false} CutFront(pre: seq<byte>, mid: seq<byte>, post: seq<byte>)
    ensures pre + (mid + post) == (pre + mid) + post
    ensures (pre + (mid + post))[|pre|..|pre| + |mid|] == mid
  {
    Nested(pre, mid, post);
    Cut(pre, mid, post);
  }

  lemma {:induction false} CutLast(pre: seq<byte>, post: seq<byte>)
    ensures (pre + post)[|pre|..] == post
  {
  }

  /** Five pieces in a row are nested to the right as well. */
  lemma {:induction false} FiveNested(a: seq<byte>, b: seq<byte>, c: seq<byte>, d: seq<byte>, e: seq<byte>)
    ensures a + b + c + d + e == a + (b + (c + (d + e)))
  {
    Nested(a + b + c, d, e);
    Nested(a + b, c, d + e);
    Nested(a, b, c + (d + e));
  }

  lemma {:induction false} CutFive(h: seq<byte>, a: seq<byte>, b: seq<byte>, c: seq<byte>, d: seq<byte>, e: seq<byte>)
    ensures var p := h + (a + b + c + d + e);
            var i := |h|;
            var j := i + |a|;
            var k := j + |b|;
            var l := k + |c|;
            var m := l + |d|;
            p[i..j] == a && p[j..k] == b && p[k..l] == c && p[l..m] == d && p[m..] == e
  {
    var x := d + e;
    var y := c + x;
    var z := b + y;
    FiveNested(a, b, c, d, e);
    CutFront(h, a, z);
    CutFront(h + a, b, y);
    CutFront(h + a + b, c, x);
    CutFront(h + a + b + c, d, e);
    CutLast(h + a + b + c + d, e);
  }

  lemma {:induction false} PartsRead(h: seq<byte>, qa: seq<byte>, qb: seq<byte>, qc: seq<byte>, qd: seq<byte>,
                                     qe: seq<byte>,
                                     w: seq<nat>, frame: u32, seqno: nat, first: nat, n: nat, pairs: nat)
    requires |h| == HEADER_SIZE && first + n <= |w|
    requires |qb| == BitmapSize(n) && |qc| == Weight(w, first, first + n) && |qd| == 4 * pairs
    requires |qe| == BitmapSize(pairs)
    ensures Read(h + (qa + qb + qc + qd + qe), w, frame, seqno, |qa|, first, n, |qc|, pairs)
         == Some(Snap(frame, seqno, qa, first, Unmark(qb, n), Unblob(w, first, qc, n), Unpast(qd, pairs),
           Unmark(qe, pairs)))
  {
    CutFive(h, qa, qb, qc, qd, qe);
  }

  lemma {:induction false} MarksBack(bits: seq<bool>)
    ensures Unmark(Marks(bits, |bits|), |bits|) == bits
  {
    UnmarkMarks(bits, |bits|);
    assert bits[..|bits|] == bits;
  }

  lemma {:induction false} LeavesBack(s: Snap, w: seq<nat>)
    requires Sendable(s, w)
    ensures Unblob(w, s.first, Blob(w, s.first, s.leaves, |s.leaves|), |s.leaves|) == s.leaves
    ensures Unpast(Past(s.history, |s.history|), |s.history|) == s.history
  {
    UnblobBlob(w, s.first, s.leaves, |s.leaves|);
    UnpastPast(s.history, |s.history|);
    assert s.leaves[..|s.leaves|] == s.leaves && s.history[..|s.history|] == s.history;
  }

  lemma {:induction false} BodyReads(h: seq<byte>, s: Snap, w: seq<nat>)
    requires Sendable(s, w) && |h| == HEADER_SIZE
    ensures var blob := Weight(w, s.first, s.first + |s.leaves|);
            Read(h + Body(s, w), w, s.frame, s.seqno, |s.flat|, s.first, |s.leaves|, blob, |s.history|) == Some(s)
  {
    PartsRead(h, s.flat, Marks(s.valid, |s.valid|), Blob(w, s.first, s.leaves, |s.leaves|),
      Past(s.history, |s.history|), Marks(s.resolved, |s.resolved|),
              w, s.frame, s.seqno, s.first, |s.leaves|, |s.history|);
    MarksBack(s.valid);
    MarksBack(s.resolved);
    LeavesBack(s, w);
  }

  lemma {:induction false} HeaderDecodes(s: Snap, w: seq<nat>, blob: nat, size: nat, body: seq<byte>)
    requires s.seqno < 0x1_0000 && |s.flat| < 0x1_0000 && s.first < 0x1_0000 && |s.leaves| < 0x1_0000
    requires |s.history| < 0x1_0000
    requires blob < 0x1_0000 && size == 16 + |body| < 0x1_0000
    ensures var p := Header(s, blob, size) + body;
            Decode(p, w) == Read(p, w, s.frame, s.seqno, |s.flat|, s.first, |s.leaves|, blob, |s.history|)
  {
    HeaderReads(s, blob, size, body);
  }

  /** The receiver gets back exactly what was sent. */
  lemma {:induction false} RoundTrip(s: Snap, w: seq<nat>)
    requires Sendable(s, w)
    ensures Decode(Encode(s, w), w) == Some(s)
  {
    var blob, size := Weight(w, s.first, s.first + |s.leaves|), 16 + BodySize(s, w);
    WeightBound(w, s.first, s.first + |s.leaves|);
    HeaderDecodes(s, w, blob, size, Body(s, w));
    BodyReads(Header(s, blob, size), s, w);
  }
}

/** What goes into a snapshot, and the buffer it is built in. */
module Snapshot {
  import opened Arithmetic
  import opened Bytes
  import opened ChainTable
  import opened ChainMeaning
  import opened ChainWalk
  import opened ChainLists
  import opened SnapWindow
  import opened SnapPacket
  import Options

  /** The loaded table with its lists, and the walker's arrays. */
  datatype Source = Source(nodes: seq<Node>, ships: seq<nat>, pairs: seq<ChainLists.Pair>, state: State)

  ghost predicate Sound(c: Source) {
    && Sized(c.nodes, c.state) && |c.nodes| <= SnapWindow.MAX_SLOTS && |c.ships| <= |c.nodes|
    && |c.pairs| <= SnapWindow.MAX_PAIRS
    && (forall i :: 0 <= i < |c.ships| ==> c.ships[i] < |c.nodes|)
    && (forall i :: 0 <= i < |c.pairs| ==> c.pairs[i].node < |c.nodes|)
  }

  /** A fetched table with the lists derived from it is a sound source. */
  lemma {:induction false} FetchedIsSound(t: seq<Node>, state: State)
    requires Sized(t, state) && |t| <= SnapWindow.MAX_SLOTS && |Pairs(t, |t|)| <= SnapWindow.MAX_PAIRS
    ensures Sound(Source(t, Ships(t, |t|), Pairs(t, |t|), state))
  {
    ShipsExactly(t, |t|);
    forall i | 0 <= i < |Ships(t, |t|)|
      ensures Ships(t, |t|)[i] < |t|
    {
      assert Ships(t, |t|)[i] in Ships(t, |t|);
    }
    forall i | 0 <= i < |Pairs(t, |t|)|
      ensures Pairs(t, |t|)[i].node < |t|
    {
      PairsInTable(t, |t|, i);
    }
  }

  function SlotWidths(c: Source, n: nat): (w: seq<nat>)
    requires n <= |c.ships| && forall i :: 0 <= i < |c.ships| ==> c.ships[i] < |c.nodes|
    ensures |w| == n && forall i :: 0 <= i < n ==> w[i] == Width(c.nodes[c.ships[i]])
  {
    if n == 0 then [] else SlotWidths(c, n - 1) + [Width(c.nodes[c.ships[n - 1]])]
  }

  /** The w low bytes of a value, as a value. */
  function Low(v: nat, w: nat): (r: nat) { LittleEndian(Le(v, w)) }

  lemma {:induction false} LowStep(v: nat, w: nat)
    requires w > 0
    ensures Low(v, w) == v % 0x100 + 0x100 * Low(v / 0x100, w - 1)
  {
    assert Le(v, w)[1..] == Le(v / 0x100, w - 1);
  }

  lemma {:induction false} LowFits(v: nat, w: nat)
    ensures Low(v, w) < Scale(w) && Le(Low(v, w), w) == Le(v, w)
    ensures v < Scale(w) ==> Low(v, w) == v
  {
    if w > 0 {
      LowFits(v / 0x100, w - 1);
      LowStep(v, w);
      assert Low(v, w) / 0x100 == Low(v / 0x100, w - 1) && Low(v, w) % 0x100 == v % 0x100;
    }
  }

  /** They are the value modulo 256 to the power of w. */
  lemma {:induction false} LowIsRemainder(v: nat, w: nat)
    ensures Scale(w) > 0 && Low(v, w) == v % Scale(w)
  {
    if w > 0 {
      LowIsRemainder(v / 0x100, w - 1);
      LowStep(v, w);
      Digits(v, 0x100, Scale(w - 1));
    } else {
      assert Le(v, 0) == [];
    }
  }

  function ValidBits(c: Source, first: nat, n: nat): (r: seq<bool>)
    requires Sound(c) && first + n <= |c.ships|
    ensures |r| == n && forall i :: 0 <= i < n ==> r[i] == Bit(c.state.valid, c.ships[first + i])
  {
    if n == 0 then [] else ValidBits(c, first, n - 1) + [Bit(c.state.valid, c.ships[first + n - 1])]
  }

  function Leaves(c: Source, first: nat, n: nat): (r: seq<nat>)
    requires Sound(c) && first + n <= |c.ships|
    ensures |r| == n
    ensures forall i :: 0 <= i < n ==>
      r[i] == Low(c.state.values[c.ships[first + i]], Width(c.nodes[c.ships[first + i]]))
  {
    if n == 0 then []
    else
      var node := c.ships[first + n - 1];
      Leaves(c, first, n - 1) + [Low(c.state.values[node], Width(c.nodes[node]))]
  }

  function PastValue(c: Source, i: nat): (r: u32)
    requires Sound(c) && i < |c.pairs|
  {
    if c.pairs[i].kind == ChainTable.PRIOR then c.state.prior[c.pairs[i].node] else c.state.previous[c.pairs[i].node]
  }

  function PastValues(c: Source, n: nat): (r: seq<u32>)
    requires Sound(c) && n <= |c.pairs|
    ensures |r| == n && forall i :: 0 <= i < n ==> r[i] == PastValue(c, i)
  {
    if n == 0 then [] else PastValues(c, n - 1) + [PastValue(c, n - 1)]
  }

  function PastBits(c: Source, n: nat): (r: seq<bool>)
    requires Sound(c) && n <= |c.pairs|
    ensures |r| == n && forall i :: 0 <= i < n ==> r[i] == Bit(c.state.validBefore, c.pairs[i].node)
  {
    if n == 0 then [] else PastBits(c, n - 1) + [Bit(c.state.validBefore, c.pairs[n - 1].node)]
  }

  function FirstSlot(c: Source, cursor: nat): (r: nat)
    ensures r <= |c.ships|
  {
    if cursor < |c.ships| then cursor else 0
  }

  /** How many slots the window at `first` has beside this many flat values. */
  function SlotCount(c: Source, count: nat, first: nat): (n: nat)
    requires Sound(c) && count <= SnapWindow.MAX_ADDRS && first <= |c.ships|
    ensures first + n <= |c.ships|
  {
    WindowEnd(SlotWidths(c, |c.ships|), first, first, Room(count, |c.pairs|)) - first
  }

  /** The snapshot of this state with the n slots from `first` on. */
  function SnapAt(c: Source, frame: u32, seqno: nat, flat: seq<byte>, first: nat, n: nat): (s: Snap)
    requires Sound(c) && first + n <= |c.ships|
  {
    Snap(frame, seqno, flat, first, ValidBits(c, first, n), Leaves(c, first, n), PastValues(c, |c.pairs|),
      PastBits(c, |c.pairs|))
  }

  /** The snapshot of this state with the window at the cursor. */
  function SnapOf(c: Source, frame: u32, seqno: nat, flat: seq<byte>, cursor: nat): (s: Snap)
    requires Sound(c) && |flat| <= SnapWindow.MAX_ADDRS
  {
    SnapAt(c, frame, seqno, flat, FirstSlot(c, cursor), SlotCount(c, |flat|, FirstSlot(c, cursor)))
  }

  lemma {:induction false} WindowFits(c: Source, first: nat, n: nat)
    requires Sound(c) && first + n <= |c.ships|
    ensures LeavesFit(Leaves(c, first, n), SlotWidths(c, |c.ships|), first)
  {
    var leaves, w := Leaves(c, first, n), SlotWidths(c, |c.ships|);
    forall i | 0 <= i < |leaves|
      ensures leaves[i] < Scale(w[first + i])
    {
      LowFits(c.state.values[c.ships[first + i]], Width(c.nodes[c.ships[first + i]]));
    }
  }

  /** Every snapshot can be sent: its fields fit and the packet stays within the budget. */
  lemma {:induction false} SnapFits(c: Source, frame: u32, seqno: nat, flat: seq<byte>, cursor: nat)
    requires Sound(c) && |flat| <= SnapWindow.MAX_ADDRS && seqno < 0x1_0000
    ensures Sendable(SnapOf(c, frame, seqno, flat, cursor), SlotWidths(c, |c.ships|))
  {
    var first := FirstSlot(c, cursor);
    CountFits(c, |flat|, first);
    SnapAtFits(c, frame, seqno, flat, first, SlotCount(c, |flat|, first));
  }

  lemma {:induction false} CountFits(c: Source, count: nat, first: nat)
    requires Sound(c) && count <= SnapWindow.MAX_ADDRS && first <= |c.ships|
    ensures FitsIn(SlotWidths(c, |c.ships|), first, first + SlotCount(c, count, first), Room(count, |c.pairs|))
  {
    WidthsFit(c);
    WindowIsLong(SlotWidths(c, |c.ships|), first, Room(count, |c.pairs|));
  }

  lemma {:induction false} SnapAtFits(c: Source, frame: u32, seqno: nat, flat: seq<byte>, first: nat, n: nat)
    requires Sound(c) && |flat| <= SnapWindow.MAX_ADDRS && seqno < 0x1_0000 && first + n <= |c.ships|
    requires FitsIn(SlotWidths(c, |c.ships|), first, first + n, Room(|flat|, |c.pairs|))
    ensures Sendable(SnapAt(c, frame, seqno, flat, first, n), SlotWidths(c, |c.ships|))
  {
    WidthsFit(c);
    WindowFits(c, first, n);
  }

  lemma {:induction false} WidthsFit(c: Source)
    requires Sound(c)
    ensures Widths(SlotWidths(c, |c.ships|))
  {
  }

  /** A dereferenced value always fits its width. */
  lemma {:induction false} DerefFits(t: seq<Node>, h: Run, n: nat, i: nat)
    requires Ordered(t) && i < |t| && Op(t[i]) == OP_DEREF
    ensures Value(t, h, n, i) < Scale(Width(t[i]))
  {
    ScaleMono(0, Width(t[i]));
    if n > 0 && ChainMeaning.Valid(t, h, n, i) {
      PackedFits(h(n), i, Address(t, h, n, i), Width(t[i]));
    }
  }

  /** Validity bits and leaves are those of walk n. */
  ghost predicate WindowMeans(c: Source, h: Run, n: nat, first: nat, valid: seq<bool>, leaves: seq<nat>)
    requires Sound(c)
  {
    && first + |leaves| <= |c.ships| && |valid| == |leaves|
    && (forall i :: 0 <= i < |valid| ==> valid[i] == ChainMeaning.Valid(c.nodes, h, n, c.ships[first + i]))
    && (forall i :: 0 <= i < |leaves| ==>
          leaves[i] == Low(Value(c.nodes, h, n, c.ships[first + i]), Width(c.nodes[c.ships[first + i]])))
  }

  /** History values are those of walk n - 1, or the prior ones of walk n; their validity is that of walk n - 1. */
  ghost predicate PastMeans(c: Source, h: Run, n: nat, history: seq<u32>, resolved: seq<bool>)
    requires Sound(c) && n > 0
  {
    && |history| == |resolved| == |c.pairs|
    && (forall i :: 0 <= i < |history| ==>
          history[i]
          == if c.pairs[i].kind == ChainTable.PRIOR then PriorValue(c.nodes, h, n, c.pairs[i].node)
             else Value(c.nodes, h, n - 1, c.pairs[i].node))
    && (forall i :: 0 <= i < |resolved| ==> resolved[i] == ChainMeaning.Valid(c.nodes, h, n - 1, c.pairs[i].node))
  }

  lemma {:induction false} WindowIsMeant(c: Source, h: Run, n: nat, first: nat, k: nat)
    requires Sound(c) && After(c.nodes, h, c.state, n) && first + k <= |c.ships|
    ensures WindowMeans(c, h, n, first, ValidBits(c, first, k), Leaves(c, first, k))
  {
    var valid, leaves := ValidBits(c, first, k), Leaves(c, first, k);
    forall i | 0 <= i < k
      ensures valid[i] == ChainMeaning.Valid(c.nodes, h, n, c.ships[first + i])
      ensures leaves[i] == Low(Value(c.nodes, h, n, c.ships[first + i]), Width(c.nodes[c.ships[first + i]]))
    {
      assert Settled(c.nodes, h, c.state, n, c.ships[first + i]);
    }
  }

  lemma {:induction false} PastIsMeant(c: Source, h: Run, n: nat)
    requires Sound(c) && n > 0 && After(c.nodes, h, c.state, n)
    ensures PastMeans(c, h, n, PastValues(c, |c.pairs|), PastBits(c, |c.pairs|))
  {
    var history, resolved := PastValues(c, |c.pairs|), PastBits(c, |c.pairs|);
    forall i | 0 <= i < |c.pairs|
      ensures history[i]
           == if c.pairs[i].kind == ChainTable.PRIOR then PriorValue(c.nodes, h, n, c.pairs[i].node)
              else Value(c.nodes, h, n - 1, c.pairs[i].node)
      ensures resolved[i] == ChainMeaning.Valid(c.nodes, h, n - 1, c.pairs[i].node)
    {
      assert Settled(c.nodes, h, c.state, n, c.pairs[i].node);
      assert Remembers(c.nodes, h, c.state, n - 1, c.pairs[i].node);
      assert BitRemembers(c.nodes, h, c.state, n - 1, c.pairs[i].node);
    }
  }

  /** The packet of every snapshot decodes to that snapshot. */
  lemma {:induction false} PacketDecodes(c: Source, frame: u32, seqno: nat, flat: seq<byte>, cursor: nat)
    requires Sound(c) && |flat| <= SnapWindow.MAX_ADDRS && seqno < 0x1_0000
    ensures var s := SnapOf(c, frame, seqno, flat, cursor);
            var w := SlotWidths(c, |c.ships|);
            Sendable(s, w) && Decode(Encode(s, w), w) == Options.Some(s)
  {
    SnapFits(c, frame, seqno, flat, cursor);
    RoundTrip(SnapOf(c, frame, seqno, flat, cursor), SlotWidths(c, |c.ships|));
  }

  /** The flat values: game memory as it is, anything else 0. */
  function FlatOf(list: seq<u32>, m: nat -> byte, n: nat): (r: seq<byte>)
    requires n <= |list|
    ensures |r| == n
  {
    if n == 0 then [] else FlatOf(list, m, n - 1) + [if GameByte(list[n - 1]) then m(list[n - 1]) else 0]
  }

  /** A byte for each listed address: the memory's where it is game memory, 0 elsewhere. */
  ghost predicate FlatMeans(list: seq<u32>, m: nat -> byte, flat: seq<byte>) {
    |flat| == |list| && forall k :: 0 <= k < |list| ==> flat[k] == if GameByte(list[k]) then m(list[k]) else 0
  }

  lemma {:induction false} FlatIsMeant(list: seq<u32>, m: nat -> byte, n: nat)
    requires n <= |list|
    ensures FlatMeans(list[..n], m, FlatOf(list, m, n))
  {
    if n > 0 {
      FlatIsMeant(list, m, n - 1);
    }
  }

  lemma {:induction false} FlatAllMeant(list: seq<u32>, m: nat -> byte)
    ensures FlatMeans(list, m, FlatOf(list, m, |list|))
  {
    FlatIsMeant(list, m, |list|);
    assert list[..|list|] == list;
  }

  /** After walk n, the snapshot says what the nodes mean at walk n, and what memory holds at the listed addresses. */
  lemma {:induction false} SnapMeans(c: Source, h: Run, n: nat, frame: u32, seqno: nat, list: seq<u32>, m: nat -> byte,
                                     cursor: nat)
    requires Sound(c) && |list| <= SnapWindow.MAX_ADDRS && n > 0 && After(c.nodes, h, c.state, n)
    ensures var s := SnapOf(c, frame, seqno, FlatOf(list, m, |list|), cursor);
            && s.frame == frame && s.seqno == seqno && FlatMeans(list, m, s.flat)
            && WindowMeans(c, h, n, s.first, s.valid, s.leaves) && PastMeans(c, h, n, s.history, s.resolved)
  {
    var first := FirstSlot(c, cursor);
    FlatAllMeant(list, m);
    WindowIsMeant(c, h, n, first, SlotCount(c, |list|, first));
    PastIsMeant(c, h, n);
  }

  lemma {:induction false} SplitSlice(s: seq<byte>, lo: nat, mid: nat, hi: nat)
    requires lo <= mid <= hi <= |s|
    ensures s[lo..hi] == s[lo..mid] + s[mid..hi]
  {
  }

  predicate SameAt(was: seq<byte>, now: seq<byte>, k: nat) { k < |was| == |now| && now[k] == was[k] }

  /**
   * The k-th snapshot since the cursor stood at 0 shows the k-th window, and leaves the cursor where the next one
   * starts: so every shipped slot comes round, in exactly one snapshot of a round.
   */
  lemma {:induction false} SnapShowsWindow(c: Source, avail: nat -> nat, k: nat, frame: u32, seqno: nat,
                                           flat: seq<byte>)
    requires Sound(c) && |flat| <= SnapWindow.MAX_ADDRS && c.ships != [] && avail(k) == Room(|flat|, |c.pairs|)
    ensures var w := SlotWidths(c, |c.ships|);
            var cursor := Start(w, avail, k);
            var s := SnapOf(c, frame, seqno, flat, cursor);
            && s.first == cursor && s.first + |s.leaves| == End(w, avail, k)
            && Next(w, FirstSlot(c, cursor), Room(|flat|, |c.pairs|)) == Start(w, avail, k + 1)
  {
  }

  /** Only bytes lo..hi of a buffer may have changed. */
  predicate Within(was: seq<byte>, now: seq<byte>, lo: nat, hi: nat) {
    && |was| == |now|
    && forall k: nat {:trigger SameAt(was, now, k)} :: k < |was| && (k < lo || hi <= k) ==> SameAt(was, now, k)
  }

  lemma {:induction false} WithinJoin(a: seq<byte>, b: seq<byte>, c: seq<byte>, lo1: nat, hi1: nat, lo2: nat, hi2: nat,
                                      lo: nat, hi: nat)
    requires Within(a, b, lo1, hi1) && Within(b, c, lo2, hi2) && lo <= lo1 && lo <= lo2 && hi1 <= hi && hi2 <= hi
    ensures Within(a, c, lo, hi)
  {
    forall k: nat {:trigger SameAt(a, c, k)} | k < |a| && (k < lo || hi <= k)
      ensures SameAt(a, c, k)
    {
      assert SameAt(a, b, k) && SameAt(b, c, k);
    }
  }

  lemma {:induction false} SliceKept(was: seq<byte>, now: seq<byte>, lo: nat, hi: nat, a: nat, b: nat)
    requires Within(was, now, lo, hi) && a <= b <= |was| && (b <= lo || hi <= a)
    ensures now[a..b] == was[a..b]
  {
    forall k: nat | a <= k < b
      ensures now[k] == was[k]
    {
      assert SameAt(was, now, k);
    }
  }

  lemma {:induction false} WeightGrows(w: seq<nat>, lo: nat, mid: nat, hi: nat)
    requires lo <= mid <= hi <= |w|
    ensures Weight(w, lo, mid) <= Weight(w, lo, hi)
    decreases hi
  {
    if mid < hi {
      WeightGrows(w, lo, mid, hi - 1);
    }
  }

  /** The bitmap for these bits with the first i of them entered, and the leaves of those i slots behind it. */
  predicate WindowAt(t: seq<byte>, w: seq<nat>, first: nat, bits: seq<bool>, leaves: seq<nat>, i: nat, at: nat)
    requires i <= |bits| == |leaves| && first + |leaves| <= |w|
  {
    var b := at + BitmapSize(|bits|);
    var e := b + Weight(w, first, first + i);
    e <= |t| && t[at..b] == Marks(bits, i) && t[b..e] == Blob(w, first, leaves, i)
  }

  /** The bitmap and the first i slots are in place, and nothing around them has changed. */
  predicate SlotsAt(start: seq<byte>, t: seq<byte>, w: seq<nat>, first: nat, bits: seq<bool>, leaves: seq<nat>, i: nat,
                    at: nat, off: nat) {
    && i <= |bits| == |leaves| && first + |leaves| <= |w|
    && off == at + BitmapSize(|bits|) + Weight(w, first, first + i) <= |t|
    && WindowAt(t, w, first, bits, leaves, i, at) && Within(start, t, at, off)
  }

  lemma {:induction false} SlotWritten(start: seq<byte>, w: seq<nat>, first: nat, bits: seq<bool>, leaves: seq<nat>,
                                       i: nat, at: nat, off: nat, t0: seq<byte>, t1: seq<byte>, t2: seq<byte>)
    requires i < |bits| && SlotsAt(start, t0, w, first, bits, leaves, i, at, off)
    requires off + w[first + i] <= |t2| == |t1| == |t0|
    requires var b := at + BitmapSize(|bits|);
             Within(t0, t1, at, b) && t1[at..b] == if bits[i] then SetBit(t0[at..b], i, true) else t0[at..b]
    requires t2[off..off + w[first + i]] == Le(leaves[i], w[first + i]) && Within(t1, t2, off, off + w[first + i])
    ensures SlotsAt(start, t2, w, first, bits, leaves, i + 1, at, off + w[first + i])
  {
    var b := at + BitmapSize(|bits|);
    LeafWritten(at, b, off, off + w[first + i], t0, t1, t2);
    WithinJoin(start, t0, t2, at, off, at, off + w[first + i], at, off + w[first + i]);
  }

  lemma {:induction false} LeafWritten(at: nat, b: nat, off: nat, next: nat, t0: seq<byte>, t1: seq<byte>,
                                       t2: seq<byte>)
    requires at <= b <= off <= next <= |t0| && Within(t0, t1, at, b) && Within(t1, t2, off, next)
    ensures Within(t0, t2, at, next) && t2[at..b] == t1[at..b] && t2[b..next] == t0[b..off] + t2[off..next]
  {
    WithinJoin(t0, t1, t2, at, b, off, next, at, next);
    SliceKept(t0, t1, at, b, b, off);
    SliceKept(t1, t2, off, next, at, b);
    SliceKept(t1, t2, off, next, b, off);
    SplitSlice(t2, b, off, next);
  }

  lemma {:induction false} SlotFacts(c: Source, w: seq<nat>, first: nat, n: nat, i: nat)
    requires Sound(c) && w == SlotWidths(c, |c.ships|) && i < n && first + n <= |w|
    ensures var node := c.ships[first + i];
            && node < |c.nodes| && w[first + i] == Width(c.nodes[node])
            && ValidBits(c, first, n)[i] == Bit(c.state.valid, node)
            && Le(c.state.values[node], w[first + i]) == Le(Leaves(c, first, n)[i], w[first + i])
    ensures Weight(w, first, first + i) + w[first + i] == Weight(w, first, first + i + 1) <= Weight(w, first, first + n)
  {
    var node := c.ships[first + i];
    LowFits(c.state.values[node], Width(c.nodes[node]));
    WeightGrows(w, first, first + i + 1, first + n);
  }

  /** The first i history values, and behind the room for all of them the bitmap with the first i bits entered. */
  predicate PastAt(t: seq<byte>, history: seq<u32>, bits: seq<bool>, i: nat, at: nat)
    requires i <= |bits| == |history|
  {
    var m := at + 4 * |history|;
    var e := m + BitmapSize(|bits|);
    e <= |t| && t[at..at + 4 * i] == Past(history, i) && t[m..e] == Marks(bits, i)
  }

  lemma {:induction false} EntryWritten(history: seq<u32>, bits: seq<bool>, i: nat, at: nat, t0: seq<byte>,
                                        t1: seq<byte>, t2: seq<byte>)
    requires i < |bits| == |history| && PastAt(t0, history, bits, i, at)
    requires var m := at + 4 * |history|;
             var e := m + BitmapSize(|bits|);
             && Within(t0, t1, at + 4 * i, at + 4 * i + 4) && t1[at + 4 * i..at + 4 * i + 4] == Be32(history[i])
             && Within(t1, t2, m, e) && t2[m..e] == if bits[i] then SetBit(t1[m..e], i, true) else t1[m..e]
    ensures PastAt(t2, history, bits, i + 1, at)
  {
    var m := at + 4 * |history|;
    var e := m + BitmapSize(|bits|);
    SliceKept(t0, t1, at + 4 * i, at + 4 * i + 4, at, at + 4 * i);
    SliceKept(t0, t1, at + 4 * i, at + 4 * i + 4, m, e);
    SliceKept(t1, t2, m, e, at, at + 4 * i);
    SliceKept(t1, t2, m, e, at + 4 * i, at + 4 * i + 4);
    SplitSlice(t2, at, at + 4 * i, at + 4 * i + 4);
  }

  /** Each section survives what is written after it. */
  lemma {:induction false} SectionsKept(t0: seq<byte>, t1: seq<byte>, t2: seq<byte>, t3: seq<byte>, h: nat, a: nat,
                                        b: nat, d: nat, e: nat, len: nat)
    requires h <= a <= b <= d <= e <= len <= |t0|
    requires Within(t0, t1, a, d) && Within(t1, t2, d, len) && Within(t2, t3, 0, h)
    ensures |t3| == |t0| && t3[h..a] == t0[h..a] && t3[a..b] == t1[a..b] && t3[b..d] == t1[b..d] && t3[d..e] == t2[d..e]
    ensures t3[e..len] == t2[e..len]
  {
    SliceKept(t0, t1, a, d, h, a);
    SliceKept(t1, t2, d, len, h, a);
    SliceKept(t1, t2, d, len, a, b);
    SliceKept(t1, t2, d, len, b, d);
    SliceKept(t2, t3, 0, h, h, a);
    SliceKept(t2, t3, 0, h, a, b);
    SliceKept(t2, t3, 0, h, b, d);
    SliceKept(t2, t3, 0, h, d, e);
    SliceKept(t2, t3, 0, h, e, len);
  }

  /** The sections of a snapshot, in place behind the room for the header. */
  ghost predicate InPlace(t: seq<byte>, s: Snap, w: seq<nat>)
    requires Sendable(s, w)
  {
    var a := HEADER_SIZE + |s.flat|;
    var b := a + BitmapSize(|s.valid|);
    var d := b + Weight(w, s.first, s.first + |s.leaves|);
    var e := d + 4 * |s.history|;
    var len := HEADER_SIZE + BodySize(s, w);
    && len <= |t|
    && t[HEADER_SIZE..a] == s.flat
    && t[a..b] == Marks(s.valid, |s.valid|)
    && t[b..d] == Blob(w, s.first, s.leaves, |s.leaves|)
    && t[d..e] == Past(s.history, |s.history|)
    && t[e..len] == Marks(s.resolved, |s.resolved|)
  }

  lemma {:induction false} Written(s: Snap, w: seq<nat>, t0: seq<byte>, t1: seq<byte>, t2: seq<byte>)
    requires Sendable(s, w) && HEADER_SIZE + BodySize(s, w) <= |t0|
    requires t0[HEADER_SIZE..HEADER_SIZE + |s.flat|] == s.flat
    requires var a := HEADER_SIZE + |s.flat|;
             var d := a + BitmapSize(|s.valid|) + Weight(w, s.first, s.first + |s.leaves|);
             && Within(t0, t1, a, d) && WindowAt(t1, w, s.first, s.valid, s.leaves, |s.leaves|, a)
             && Within(t1, t2, d, HEADER_SIZE + BodySize(s, w)) && PastAt(t2, s.history, s.resolved, |s.history|, d)
    ensures InPlace(t2, s, w)
  {
    var a := HEADER_SIZE + |s.flat|;
    var b := a + BitmapSize(|s.valid|);
    var d := b + Weight(w, s.first, s.first + |s.leaves|);
    SectionsKept(t0, t1, t2, t2, HEADER_SIZE, a, b, d, d + 4 * |s.history|, HEADER_SIZE + BodySize(s, w));
  }

  lemma {:induction false} InPlaceIsBody(t: seq<byte>, s: Snap, w: seq<nat>)
    requires Sendable(s, w) && InPlace(t, s, w)
    ensures t[HEADER_SIZE..HEADER_SIZE + BodySize(s, w)] == Body(s, w)
  {
    var a := HEADER_SIZE + |s.flat|;
    var b := a + BitmapSize(|s.valid|);
    var d := b + Weight(w, s.first, s.first + |s.leaves|);
    var e := d + 4 * |s.history|;
    var len := HEADER_SIZE + BodySize(s, w);
    SplitSlice(t, HEADER_SIZE, e, len);
    SplitSlice(t, HEADER_SIZE, d, e);
    SplitSlice(t, HEADER_SIZE, b, d);
    SplitSlice(t, HEADER_SIZE, a, b);
  }

  /** With the header in front, the sections are the packet. */
  lemma {:induction false} Headed(head: seq<byte>, body: seq<byte>, t2: seq<byte>, t3: seq<byte>)
    requires HEADER_SIZE + |body| <= |t2| && t2[HEADER_SIZE..HEADER_SIZE + |body|] == body
    requires Within(t2, t3, 0, HEADER_SIZE) && t3[..HEADER_SIZE] == head
    ensures t3[..HEADER_SIZE + |body|] == head + body
  {
    SliceKept(t2, t3, 0, HEADER_SIZE, HEADER_SIZE, HEADER_SIZE + |body|);
    assert t3[..HEADER_SIZE + |body|] == t3[..HEADER_SIZE] + t3[HEADER_SIZE..HEADER_SIZE + |body|];
  }

  /** The snapshot s has the window chosen and the sections of this state. */
  ghost predicate Planned(c: Source, flat: seq<byte>, first: nat, n: nat, blob: nat, s: Snap, w: seq<nat>) {
    && Sound(c) && w == SlotWidths(c, |c.ships|) && Sendable(s, w)
    && s.flat == flat && s.first == first && first + n <= |w| && blob == Weight(w, first, first + n)
    && s.valid == ValidBits(c, first, n) && s.leaves == Leaves(c, first, n)
    && s.history == PastValues(c, |c.pairs|) && s.resolved == PastBits(c, |c.pairs|)
  }

  /** Where the sections of a planned snapshot start and end. */
  lemma {:induction false} PlanSizes(c: Source, flat: seq<byte>, first: nat, n: nat, blob: nat, s: Snap, w: seq<nat>)
    requires Planned(c, flat, first, n, blob, s, w)
    ensures |s.valid| == |s.leaves| == n && |s.history| == |s.resolved| == |c.pairs| && |s.flat| == |flat|
    ensures s.first == first && blob == Weight(w, s.first, s.first + |s.leaves|)
    ensures HEADER_SIZE + |flat| + BitmapSize(n) + blob + 4 * |c.pairs| + BitmapSize(|c.pairs|)
         == HEADER_SIZE + BodySize(s, w) <= BUDGET
  {
  }

  /** A planned snapshot is in place once its window and its history are written. */
  lemma {:induction false} PlanWritten(c: Source, flat: seq<byte>, at: nat, d: nat, first: nat, n: nat, blob: nat,
                                       s: Snap, w: seq<nat>, t0: seq<byte>, t1: seq<byte>, t2: seq<byte>)
    requires Planned(c, flat, first, n, blob, s, w) && HEADER_SIZE + BodySize(s, w) <= |t0|
    requires at == HEADER_SIZE + |flat| && d == at + BitmapSize(n) + blob && t0[HEADER_SIZE..at] == flat
    requires WindowAt(t1, w, first, ValidBits(c, first, n), Leaves(c, first, n), n, at)
    requires Within(t0, t1, at, at + BitmapSize(n) + Weight(w, first, first + n))
    requires PastAt(t2, PastValues(c, |c.pairs|), PastBits(c, |c.pairs|), |c.pairs|, d)
    requires Within(t1, t2, d, d + 4 * |c.pairs| + BitmapSize(|c.pairs|))
    ensures InPlace(t2, s, w)
  {
    PlanSizes(c, flat, first, n, blob, s, w);
    Written(s, w, t0, t1, t2);
  }

  lemma {:induction false} FieldsFit(s: Snap, w: seq<nat>)
    requires Sendable(s, w)
    ensures s.first < 0x1_0000 && |s.leaves| < 0x1_0000 && Weight(w, s.first, s.first + |s.leaves|) < 0x1_0000
    ensures |s.flat| < 0x1_0000 && |s.history| < 0x1_0000
    ensures Encode(s, w) == Header(s, Weight(w, s.first, s.first + |s.leaves|), 16 + BodySize(s, w)) + Body(s, w)
  {
    WeightBound(w, s.first, s.first + |s.leaves|);
  }

  /** The flat values stand right behind the header. */
  lemma {:induction false} FlatInPacket(s: Snap, w: seq<nat>, t: seq<byte>, len: nat)
    requires Sendable(s, w) && len <= |t| && t[..len] == Encode(s, w)
    ensures HEADER_SIZE + |s.flat| <= len && t[HEADER_SIZE..HEADER_SIZE + |s.flat|] == s.flat
  {
    FieldsFit(s, w);
    BodyStarts(s, w);
    BehindHeader(Header(s, Weight(w, s.first, s.first + |s.leaves|), 16 + BodySize(s, w)), Body(s, w), s.flat, t, len);
  }

  lemma {:induction false} BehindHeader(head: seq<byte>, body: seq<byte>, flat: seq<byte>, t: seq<byte>, len: nat)
    requires len <= |t| && t[..len] == head + body && |head| == HEADER_SIZE
    requires |flat| <= |body| && body[..|flat|] == flat
    ensures HEADER_SIZE + |flat| <= len && t[HEADER_SIZE..HEADER_SIZE + |flat|] == flat
  {
    var a := HEADER_SIZE + |flat|;
    assert t[HEADER_SIZE..a] == t[..len][HEADER_SIZE..a];
    assert (head + body)[HEADER_SIZE..a] == body[..|flat|];
  }

  lemma {:induction false} BodyStarts(s: Snap, w: seq<nat>)
    requires Sendable(s, w)
    ensures |s.flat| <= |Body(s, w)| && Body(s, w)[..|s.flat|] == s.flat
  {
  }

  const TX_SIZE := 8192

  class Sender {
    const tx: array<byte>
    /** Where the next window starts. */
    var cursor: nat

    constructor ()
      ensures tx.Length == TX_SIZE && cursor == 0 && fresh(tx)
    {
      tx := new byte[TX_SIZE](_ => 0);
      cursor := 0;
    }

    method Put(at: nat, data: seq<byte>)
      requires at + |data| <= tx.Length
      modifies tx
      ensures tx[at..at + |data|] == data && Within(old(tx[..]), tx[..], at, at + |data|)
    {
      forall k | at <= k < at + |data| {
        tx[k] := data[k - at];
      }
    }

    method Mark(at: nat, size: nat, i: nat)
      requires at + size <= tx.Length && i < 8 * size
      modifies tx
      ensures tx[at..at + size] == SetBit(old(tx[at..at + size]), i, true) && Within(old(tx[..]), tx[..], at, at + size)
    {
      var marked := SetBit(tx[at..at + size], i, true);
      tx[at + i / 8] := marked[i / 8];
      assert marked == old(tx[at..at + size])[i / 8 := marked[i / 8]];
      assert tx[at..at + size] == marked;
    }

    /** The flat values behind the header. */
    method WriteFlat(list: seq<u32>, m: nat -> byte)
      requires tx.Length == TX_SIZE && |list| <= SnapWindow.MAX_ADDRS
      modifies tx
      ensures tx[HEADER_SIZE..HEADER_SIZE + |list|] == FlatOf(list, m, |list|)
    {
      var i := 0;
      while i < |list|
        invariant i <= |list| && tx[HEADER_SIZE..HEADER_SIZE + i] == FlatOf(list, m, i)
      {
        tx[HEADER_SIZE + i] := if GameByte(list[i]) then m(list[i]) else 0;
        SliceSnoc(tx[..], HEADER_SIZE, HEADER_SIZE + i);
        i := i + 1;
      }
    }

    /** The greedy choice of the window, and the cursor behind it. */
    method Choose(c: Source, ghost w: seq<nat>, avail: nat) returns (first: nat, n: nat, blob: nat)
      requires Sound(c) && w == SlotWidths(c, |c.ships|)
      modifies this`cursor
      ensures first == FirstSlot(c, old(cursor)) && first + n == WindowEnd(w, first, first, avail) <= |w|
      ensures blob == Weight(w, first, first + n)
      ensures c.ships != [] ==> cursor == Next(w, first, avail)
      ensures c.ships == [] ==> cursor == old(cursor)
    {
      first, n, blob := 0, 0, 0;
      if |c.ships| > 0 {
        var s := if cursor < |c.ships| then cursor else 0;
        first := s;
        while s < |c.ships| && BitmapSize(n + 1) + blob + Width(c.nodes[c.ships[s]]) <= avail
          invariant first <= s <= |c.ships| && n == s - first && blob == Weight(w, first, s)
          invariant WindowEnd(w, first, first, avail) == WindowEnd(w, first, s, avail)
        {
          assert FitsIn(w, first, s + 1, avail);
          blob := blob + Width(c.nodes[c.ships[s]]);
          n, s := n + 1, s + 1;
        }
        cursor := if s >= |c.ships| then 0 else s;
      }
    }

    /** The validity bitmap and, slot after slot, the leaf values behind it. */
    method WriteWindow(c: Source, ghost w: seq<nat>, first: nat, n: nat, at: nat)
      requires Sound(c) && w == SlotWidths(c, |c.ships|) && first + n <= |w|
      requires at + BitmapSize(n) + Weight(w, first, first + n) <= tx.Length
      modifies tx
      ensures WindowAt(tx[..], w, first, ValidBits(c, first, n), Leaves(c, first, n), n, at)
      ensures Within(old(tx[..]), tx[..], at, at + BitmapSize(n) + Weight(w, first, first + n))
    {
      ghost var bits, leaves := ValidBits(c, first, n), Leaves(c, first, n);
      var off := ClearMap(n, at, w, first, bits, leaves);
      var i: nat := 0;
      while i < n
        invariant i <= n && SlotsAt(old(tx[..]), tx[..], w, first, bits, leaves, i, at, off)
      {
        SlotFacts(c, w, first, n, i);
        var node := c.ships[first + i];
        off := WriteSlot(Bit(c.state.valid, node), c.state.values[node], Width(c.nodes[node]), n, i, at, off, w, first,
          bits, leaves, old(tx[..]));
        i := i + 1;
      }
    }

    method ClearMap(n: nat, at: nat, ghost w: seq<nat>, ghost first: nat, ghost bits: seq<bool>, ghost leaves: seq<nat>)
      returns (off: nat)
      requires n == |bits| == |leaves| && first + n <= |w| && at + BitmapSize(n) <= tx.Length
      modifies tx
      ensures SlotsAt(old(tx[..]), tx[..], w, first, bits, leaves, 0, at, off)
    {
      Put(at, Zeros(BitmapSize(n)));
      off := at + BitmapSize(n);
    }

    method WriteSlot(bit: bool, v: u32, width: nat, n: nat, i: nat, at: nat, off: nat,
                     ghost w: seq<nat>, ghost first: nat, ghost bits: seq<bool>, ghost leaves: seq<nat>,
                       ghost start: seq<byte>) returns (next: nat)
      requires i < n == |bits| && SlotsAt(start, tx[..], w, first, bits, leaves, i, at, off)
      requires bit == bits[i] && width == w[first + i] && Le(v, width) == Le(leaves[i], width)
      requires off + width <= tx.Length
      modifies tx
      ensures SlotsAt(start, tx[..], w, first, bits, leaves, i + 1, at, next)
    {
      ghost var t0 := tx[..];
      if bit {
        Mark(at, BitmapSize(n), i);
      }
      ghost var t1 := tx[..];
      Put(off, Le(v, width));
      next := off + width;
      ghost var t2 := tx[..];
      SlotWritten(start, w, first, bits, leaves, i, at, off, t0, t1, t2);
    }

    /** The history values and, behind them, the bitmap of those that had resolved. */
    method WritePast(c: Source, at: nat)
      requires Sound(c) && at + 4 * |c.pairs| + BitmapSize(|c.pairs|) <= tx.Length
      modifies tx
      ensures PastAt(tx[..], PastValues(c, |c.pairs|), PastBits(c, |c.pairs|), |c.pairs|, at)
      ensures Within(old(tx[..]), tx[..], at, at + 4 * |c.pairs| + BitmapSize(|c.pairs|))
    {
      ghost var history, bits, start := PastValues(c, |c.pairs|), PastBits(c, |c.pairs|), tx[..];
      var m, size := at + 4 * |c.pairs|, BitmapSize(|c.pairs|);
      ClearMarks(at, m, size, history, bits);
      var i: nat := 0;
      while i < |c.pairs|
        invariant i <= |c.pairs| && PastAt(tx[..], history, bits, i, at)
        invariant Within(start, tx[..], at, m + size)
      {
        WriteEntry(PastValue(c, i), Bit(c.state.validBefore, c.pairs[i].node), i, at, m, size, history, bits, start);
        i := i + 1;
      }
    }

    method ClearMarks(ghost at: nat, m: nat, size: nat, ghost history: seq<u32>, ghost bits: seq<bool>)
      requires |bits| == |history| && m == at + 4 * |history| && size == BitmapSize(|bits|) && m + size <= tx.Length
      modifies tx
      ensures PastAt(tx[..], history, bits, 0, at) && Within(old(tx[..]), tx[..], at, m + size)
    {
      ghost var start := tx[..];
      Put(m, Zeros(size));
      WithinJoin(start, start, tx[..], m, m + size, m, m + size, at, m + size);
    }

    method WriteEntry(v: u32, bit: bool, i: nat, at: nat, m: nat, size: nat, ghost history: seq<u32>,
                      ghost bits: seq<bool>, ghost start: seq<byte>)
      requires i < |bits| == |history| && v == history[i] && bit == bits[i]
      requires m == at + 4 * |history| && size == BitmapSize(|bits|) && m + size <= tx.Length
      requires PastAt(tx[..], history, bits, i, at) && Within(start, tx[..], at, m + size)
      modifies tx
      ensures PastAt(tx[..], history, bits, i + 1, at) && Within(start, tx[..], at, m + size)
    {
      ghost var t0 := tx[..];
      Put(at + 4 * i, Be32(v));
      ghost var t1 := tx[..];
      if bit {
        Mark(m, size, i);
      }
      EntryWritten(history, bits, i, at, t0, t1, tx[..]);
      WithinJoin(start, t0, t1, at, m + size, at + 4 * i, at + 4 * i + 4, at, m + size);
      WithinJoin(start, t1, tx[..], at, m + size, m, m + size, at, m + size);
    }

    method WriteHeader(frame: u32, seqno: nat, count: nat, first: nat, n: nat, blob: nat, pairs: nat, len: nat,
                       ghost s: Snap)
      requires tx.Length == TX_SIZE && 4 <= len < TX_SIZE && seqno < 0x1_0000 && count < 0x1_0000 && first < 0x1_0000
      requires n < 0x1_0000 && pairs < 0x1_0000 && blob < 0x1_0000
      requires frame == s.frame && seqno == s.seqno && count == |s.flat| && first == s.first && n == |s.leaves|
      requires pairs == |s.history|
      modifies tx
      ensures tx[..HEADER_SIZE] == Header(s, blob, len - 4) && Within(old(tx[..]), tx[..], 0, HEADER_SIZE)
    {
      var size := len - 4;
      var bytes: seq<byte> := [0x52, 0x03] + Be16(size) + Be32(frame) + Be16(count) + Be16(seqno)
        + Be16(first) + Be16(n) + Be16(blob) + Be16(pairs);
      assert bytes == Header(s, blob, size);
      Put(0, bytes);
      assert tx[..HEADER_SIZE] == tx[0..HEADER_SIZE];
    }

    /** The sections of snapshot s. */
    method WriteSections(c: Source, list: seq<u32>, m: nat -> byte, first: nat, n: nat, blob: nat, ghost s: Snap,
                         ghost w: seq<nat>)
      returns (len: nat)
      requires tx.Length == TX_SIZE && |list| <= SnapWindow.MAX_ADDRS
      requires Planned(c, FlatOf(list, m, |list|), first, n, blob, s, w)
      modifies tx
      ensures len == HEADER_SIZE + BodySize(s, w) && InPlace(tx[..], s, w)
    {
      WriteFlat(list, m);
      len := WriteRest(c, FlatOf(list, m, |list|), HEADER_SIZE + |list|, first, n, blob, s, w);
    }

    /** The sections behind the flat values. */
    method WriteRest(c: Source, ghost flat: seq<byte>, at: nat, first: nat, n: nat, blob: nat, ghost s: Snap,
                     ghost w: seq<nat>)
      returns (len: nat)
      requires tx.Length == TX_SIZE && Planned(c, flat, first, n, blob, s, w) && at == HEADER_SIZE + |flat|
      requires tx[HEADER_SIZE..at] == flat
      modifies tx
      ensures len == HEADER_SIZE + BodySize(s, w) && InPlace(tx[..], s, w)
    {
      PlanSizes(c, flat, first, n, blob, s, w);
      var d := at + BitmapSize(n) + blob;
      len := d + 4 * |c.pairs| + BitmapSize(|c.pairs|);
      ghost var t0 := tx[..];
      WriteWindow(c, w, first, n, at);
      ghost var t1 := tx[..];
      WritePast(c, d);
      ghost var t2 := tx[..];
      PlanWritten(c, flat, at, d, first, n, blob, s, w, t0, t1, t2);
    }

    /** ra_send_snapshot, as far as the finished packet: what the buffer holds is the encoded snapshot. */
    method Build(c: Source, list: seq<u32>, m: nat -> byte, frame: u32, seqno: nat) returns (len: nat)
      requires tx.Length == TX_SIZE && Sound(c) && |list| <= SnapWindow.MAX_ADDRS && seqno < 0x1_0000
      modifies tx, this`cursor
      ensures var s := SnapOf(c, frame, seqno, FlatOf(list, m, |list|), old(cursor));
              var w := SlotWidths(c, |c.ships|);
              Sendable(s, w) && len <= BUDGET && tx[..len] == Encode(s, w)
      ensures HEADER_SIZE + |list| <= len && FlatMeans(list, m, tx[HEADER_SIZE..HEADER_SIZE + |list|])
      ensures c.ships != [] ==>
        cursor == Next(SlotWidths(c, |c.ships|), FirstSlot(c, old(cursor)), Room(|list|, |c.pairs|))
    {
      ghost var w := SlotWidths(c, |c.ships|);
      ghost var s := SnapOf(c, frame, seqno, FlatOf(list, m, |list|), cursor);
      SnapFits(c, frame, seqno, FlatOf(list, m, |list|), cursor);
      var first, n, blob := Choose(c, w, Room(|list|, |c.pairs|));
      len := Finish(c, list, m, frame, seqno, first, n, blob, s, w);
      FlatAllMeant(list, m);
      FlatInPacket(s, w, tx[..], len);
    }

    method Finish(c: Source, list: seq<u32>, m: nat -> byte, frame: u32, seqno: nat, first: nat, n: nat, blob: nat,
                  ghost s: Snap, ghost w: seq<nat>)
      returns (len: nat)
      requires tx.Length == TX_SIZE && |list| <= SnapWindow.MAX_ADDRS
      requires Planned(c, FlatOf(list, m, |list|), first, n, blob, s, w)
      requires s.frame == frame && s.seqno == seqno
      modifies tx
      ensures len <= BUDGET && tx[..len] == Encode(s, w)
    {
      PlanSizes(c, FlatOf(list, m, |list|), first, n, blob, s, w);
      len := WriteSections(c, list, m, first, n, blob, s, w);
      Crown(frame, seqno, |list|, first, n, blob, |c.pairs|, len, s, w);
    }

    /** The header goes in last. */
    method Crown(frame: u32, seqno: nat, count: nat, first: nat, n: nat, blob: nat, pairs: nat, len: nat,
                 ghost s: Snap, ghost w: seq<nat>)
      requires tx.Length == TX_SIZE && Sendable(s, w) && InPlace(tx[..], s, w) && len == HEADER_SIZE + BodySize(s, w)
      requires frame == s.frame && seqno == s.seqno && count == |s.flat| && first == s.first && n == |s.leaves|
      requires pairs == |s.history|
      requires blob == Weight(w, s.first, s.first + |s.leaves|)
      modifies tx
      ensures tx[..len] == Encode(s, w)
    {
      ghost var t2 := tx[..];
      InPlaceIsBody(t2, s, w);
      FieldsFit(s, w);
      WriteHeader(frame, seqno, count, first, n, blob, pairs, len, s);
      Headed(tx[..HEADER_SIZE], Body(s, w), t2, tx[..]);
    }
  }
}

/** What the history section says of the values the walk used. */
module SnapHistory {
  import opened Bytes
  import opened ChainTable
  import opened ChainMeaning
  import opened ChainWalk
  import opened ChainLists
  import opened Snapshot
  import ChainChunk

  /** The one history kind the protocol has no name for. */
  const UNNAMED := 3

  lemma {:induction false} KindRange(n: Node)
    ensures Kind(n) <= UNNAMED
  {
  }

  /**
   * Every node that asks for history has its pair in the section, and the value shipped there is the one
   * its edge read at walk n, exactly when the kind is a named one or the parent has not changed.
   */
  lemma {:induction false} HistoryExactly(c: Source, h: Run, n: nat, i: nat, frame: u32, seqno: nat, flat: seq<byte>,
                                          cursor: nat)
    returns (j: nat)
    requires Sound(c) && c.pairs == Pairs(c.nodes, |c.nodes|) && |flat| <= SnapWindow.MAX_ADDRS
    requires n > 0 && After(c.nodes, h, c.state, n) && i < |c.nodes| && Asks(c.nodes[i])
    ensures j < |c.pairs| && c.pairs[j] == PairOf(c.nodes[i])
    ensures var p := c.nodes[i].parent;
            SnapOf(c, frame, seqno, flat, cursor).history[j] == FromParent(c.nodes, h, n, i)
            <==> Kind(c.nodes[i]) != UNNAMED || Value(c.nodes, h, n, p) == Value(c.nodes, h, n - 1, p)
  {
    PairsExactly(c.nodes, |c.nodes|);
    assert PairOf(c.nodes[i]) in c.pairs;
    j :| 0 <= j < |c.pairs| && c.pairs[j] == PairOf(c.nodes[i]);
    KindRange(c.nodes[i]);
    PastIsMeant(c, h, n);
  }

  /** A byte of memory, and a node that reads it through an edge of the unnamed kind. */
  function AskingTable(): (t: seq<Node>)
    ensures |t| == 2 && Ordered(t) && ChainChunk.AllFit(t, 0, 2) && Asks(t[1]) && Kind(t[1]) == UNNAMED
  {
    [Node(0, NO_PARENT, OP_DEREF, 0), Node(0, 0, OP_ADD, 64 * UNNAMED + 3)]
  }

  /** Every byte holds the number of the walk. */
  function CountingAt(n: nat): (m: Memory) { (i, a) => n % 256 }

  function Counting(): (h: Run) { n => CountingAt(n) }

  lemma {:induction false} RootLoads(t: seq<Node>, h: Run, n: nat, i: nat)
    requires Ordered(t) && i < |t| && n > 0 && t[i].parent == NO_PARENT
    requires Op(t[i]) == OP_DEREF && AddrOk(t[i].operand, Width(t[i]))
    ensures Value(t, h, n, i) == Load(h(n), i, t[i].operand, Width(t[i]))
  {
    assert Edge(t, h, n, i) && Address(t, h, n, i) == t[i].operand;
    assert ChainMeaning.Valid(t, h, n, i);
  }

  lemma {:induction false} CountingLoads(n: nat)
    requires 0 < n < 256
    ensures Load(CountingAt(n), 0, 0, 1) == n
  {
    assert Packed(CountingAt(n), 0, 0, 0) == 0 && Scale(0) == 1;
    assert Packed(CountingAt(n), 0, 0, 1) == n;
  }

  lemma {:induction false} CountingValue(n: nat)
    requires 0 < n < 256
    ensures Value(AskingTable(), Counting(), n, 0) == n
  {
    var t := AskingTable();
    assert Op(t[0]) == OP_DEREF && Width(t[0]) == 1 && AddrOk(0, 1);
    RootLoads(t, Counting(), n, 0);
    CountingLoads(n);
  }

  lemma {:induction false} AskingPairs()
    ensures Pairs(AskingTable(), 2) == [ChainLists.Pair(0, UNNAMED)]
  {
    var t := AskingTable();
    assert Pairs(t, 0) == [] && Pairs(t, 1) == [];
  }

  method CountTwice(t: seq<Node>) returns (state: State)
    requires Ordered(t) && |t| <= ChainTable.MAX_NODES
    ensures After(t, Counting(), state, 2)
  {
    var w := new Walker(t);
    w.Walk(CountingAt(1), Counting(), 0);
    w.Walk(CountingAt(2), Counting(), 1);
    state := State(w.values[..], w.previous[..], w.prior[..], w.valid[..], w.validBefore[..], w.havePrevious);
  }

  /** Two walks over a table that passes validation: the edge reads 2, and the section ships 1. */
  method UnnamedDiffers() returns (c: Source, shipped: u32)
    ensures c.nodes == AskingTable() && c.pairs == Pairs(c.nodes, 2) && Sound(c)
    ensures After(c.nodes, Counting(), c.state, 2)
    ensures shipped == PastValue(c, 0) == 1 && FromParent(c.nodes, Counting(), 2, 1) == 2
  {
    var t := AskingTable();
    var state := CountTwice(t);
    AskingPairs();
    FetchedIsSound(t, state);
    c := Source(t, Ships(t, 2), Pairs(t, 2), state);
    shipped := PastValue(c, 0);
    UnnamedShipped(c);
  }

  lemma {:induction false} UnnamedShipped(c: Source)
    requires c.nodes == AskingTable() && c.pairs == [ChainLists.Pair(0, UNNAMED)] && Sound(c)
    requires After(c.nodes, Counting(), c.state, 2)
    ensures PastValue(c, 0) == 1 && FromParent(c.nodes, Counting(), 2, 1) == 2
  {
    CountingValue(1);
    CountingValue(2);
    PastIsMeant(c, Counting(), 2);
  }
}
