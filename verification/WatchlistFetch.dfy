/** Chunked fetch of the watchlist: what a chunk must pass, and what a list of them holds. */
module WatchlistChunk {
  import opened Bytes
  import opened ChainChunk
  import WatchlistLog

  const CHUNK_ADDRS := 1024

  function AddrCount(r: Reply): (n: nat) requires |r| == REPLY_SIZE { H(r, 8) }

  predicate Final(r: Reply) requires |r| == REPLY_SIZE { B(r, 10) != 0 }

  /** The first n addresses of a chunk. */
  function AddrsOf(r: Reply, n: nat): (s: seq<u32>)
    requires |r| == REPLY_SIZE && n <= CHUNK_ADDRS
    ensures |s| == n
  {
    if n == 0 then [] else AddrsOf(r, n - 1) + [W(r, 12 + 4 * (n - 1))]
  }

  lemma {:induction false} AddrsOfAt(r: Reply, n: nat, k: nat)
    requires |r| == REPLY_SIZE && k < n <= CHUNK_ADDRS
    ensures AddrsOf(r, n)[k] == W(r, 12 + 4 * k)
  {
    if k < n - 1 {
      AddrsOfAt(r, n - 1, k);
    }
  }

  /** Where the header and the addresses stand in a chunk. */
  lemma {:induction false} ChunkBytes(r: Reply, n: nat, k: nat, index: nat)
    requires |r| == REPLY_SIZE && k < n <= CHUNK_ADDRS
    ensures AddrsOf(r, n)[k] == BigEndian(Octets(r, 12 + 4 * k, 4))
    ensures var count := BigEndian(Octets(r, 8, 2));
            && AddrCount(r) == count && (Final(r) <==> r[10] != 0)
            && (Check(r, index) == 0 <==> r[0] == 0xAE && count <= 1024 && BigEndian(Octets(r, 6, 2)) == index)
  {
    AddrsOfAt(r, n, k);
    FieldsAreBig(r, 12 + 4 * k);
    FieldsAreBig(r, 8);
    FieldsAreBig(r, 6);
  }

  /** The four bytes behind the addresses match everything before them. */
  ghost predicate Intact(r: Reply, seal: Seal)
    requires |r| == REPLY_SIZE && AddrCount(r) <= CHUNK_ADDRS
  {
    seal(r[..12 + 4 * AddrCount(r)], r[12 + 4 * AddrCount(r)..][..4])
  }

  /** The header checks, in the order of the source: 0, or the error. */
  function Check(r: Reply, index: nat): (e: int)
    requires |r| == REPLY_SIZE
  {
    if B(r, 0) != MAGIC then -100
    else if AddrCount(r) > CHUNK_ADDRS then -101
    else if H(r, 6) != index then -102
    else 0
  }

  /** A reply that is chunk number `index`. */
  ghost predicate Proven(r: Reply, index: nat, seal: Seal) {
    |r| == REPLY_SIZE && Check(r, index) == 0 && Intact(r, seal)
  }

  predicate Sized(rs: seq<Reply>) {
    forall i :: 0 <= i < |rs| ==> |rs[i]| == REPLY_SIZE && AddrCount(rs[i]) <= CHUNK_ADDRS
  }

  /** The addresses of chunks 0, 1, ... in order. */
  function Gathered(rs: seq<Reply>): (s: seq<u32>)
    requires Sized(rs)
  {
    if rs == [] then [] else
      var r := rs[|rs| - 1];
      Gathered(rs[..|rs| - 1]) + AddrsOf(r, AddrCount(r))
  }

  function Total(rs: seq<Reply>): (n: nat)
    requires Sized(rs)
  {
    if rs == [] then 0 else Total(rs[..|rs| - 1]) + AddrCount(rs[|rs| - 1])
  }

  /** As much of a list as there is room for. */
  function Capped(s: seq<u32>): (r: seq<u32>)
    ensures |r| <= WatchlistLog.MAX_ADDRS && r <= s
  {
    if |s| <= WatchlistLog.MAX_ADDRS then s else s[..WatchlistLog.MAX_ADDRS]
  }

  lemma {:induction false} GatheredLength(rs: seq<Reply>)
    requires Sized(rs)
    ensures |Gathered(rs)| == Total(rs)
  {
    if rs != [] {
      GatheredLength(rs[..|rs| - 1]);
    }
  }

  /** The list holds every address of its chunks exactly when their counts sum to at most 6144. */
  lemma {:induction false} CappedExactly(rs: seq<Reply>)
    requires Sized(rs)
    ensures Capped(Gathered(rs)) == Gathered(rs) <==> Total(rs) <= WatchlistLog.MAX_ADDRS
    ensures |Capped(Gathered(rs))| == if Total(rs) <= WatchlistLog.MAX_ADDRS then Total(rs) else WatchlistLog.MAX_ADDRS
  {
    GatheredLength(rs);
  }

  /** Cutting piece by piece is cutting once. */
  lemma {:induction false} CappedTwice(a: seq<u32>, b: seq<u32>)
    ensures Capped(Capped(a) + b) == Capped(a + b)
  {
    if |a| > WatchlistLog.MAX_ADDRS {
      assert Capped(a) + b == a[..WatchlistLog.MAX_ADDRS] + b;
    }
  }

  lemma {:induction false} GatheredSnoc(rs: seq<Reply>, r: Reply)
    requires Sized(rs) && |r| == REPLY_SIZE && AddrCount(r) <= CHUNK_ADDRS
    ensures Sized(rs + [r]) && Gathered(rs + [r]) == Gathered(rs) + AddrsOf(r, AddrCount(r))
  {
    assert (rs + [r])[..|rs|] == rs;
  }

  /** Corruption inside four consecutive bytes of the payload, the address count aside, never goes through. */
  lemma {:induction false} DamageRejected(r: Reply, s: Reply, lo: nat, hi: nat)
    requires |r| == |s| == REPLY_SIZE && AddrCount(r) <= CHUNK_ADDRS && (hi <= 8 || lo >= 10)
    requires lo <= hi <= lo + 4 && hi <= 12 + 4 * AddrCount(r)
    requires r[..lo] == s[..lo] && r[hi..] == s[hi..] && r != s
    requires Intact(r, CrcSeal)
    ensures AddrCount(s) == AddrCount(r) && !Intact(s, CrcSeal)
  {
    SameField(r, s, lo, hi, 8);
    BurstUnseals(r, s, lo, hi, 12 + 4 * AddrCount(r));
  }
}

/** The fetch: three attempts at each of at most 32 chunks. */
module WatchlistFetch {
  import opened Bytes
  import opened ChainChunk
  import opened ChainFetch
  import opened WatchlistChunk
  import Crc
  import WatchlistLog

  const MOST_CHUNKS := 32
  const NEVER_LAST := -200

  ghost predicate Acceptable(a: Answer, index: nat, seal: Seal) { a.Got? && Proven(a.reply, index, seal) }

  /** The reply is the first acceptable answer for its index. */
  ghost predicate FirstOf(link: Link, index: nat, r: Reply, seal: Seal) {
    && Proven(r, index, seal)
    && exists a: nat :: CameAt(link, index, r, seal, a)
  }

  ghost predicate CameAt(link: Link, index: nat, r: Reply, seal: Seal, a: nat) {
    a < ATTEMPTS && link(index, a) == Got(r) && forall b :: 0 <= b < a ==> !Acceptable(link(index, b), index, seal)
  }

  ghost predicate Missed(link: Link, index: nat, seal: Seal) {
    forall a :: 0 <= a < ATTEMPTS ==> !Acceptable(link(index, a), index, seal)
  }

  /**
   * The chunks are the first acceptable answers, one index after the other; only the last of them may say it is the
   * last.
   */
  ghost predicate Course(link: Link, chunks: seq<Reply>, seal: Seal) {
    && Sized(chunks)
    && (forall i :: 0 <= i < |chunks| ==> FirstOf(link, i, chunks[i], seal))
    && (forall i :: 0 <= i < |chunks| - 1 ==> !Final(chunks[i]))
  }

  predicate Complete(chunks: seq<Reply>)
    requires Sized(chunks)
  {
    chunks != [] && Final(chunks[|chunks| - 1])
  }

  lemma {:induction false} CourseSnoc(link: Link, chunks: seq<Reply>, r: Reply, seal: Seal)
    requires Course(link, chunks, seal) && !Complete(chunks) && FirstOf(link, |chunks|, r, seal)
    ensures Course(link, chunks + [r], seal)
  {
  }

  class List {
    const addrs: array<u32>
    var count: nat
    ghost const seal: Seal

    ghost predicate Shaped()
      reads this
    {
      addrs.Length == WatchlistLog.MAX_ADDRS && count <= addrs.Length && IsCrc(seal)
    }

    constructor ()
      ensures Shaped() && count == 0 && seal == CrcSeal && fresh(addrs)
    {
      addrs := new u32[WatchlistLog.MAX_ADDRS](_ => 0);
      seal := CrcSeal;
      count := 0;
    }

    /**
     * ra_fetch_watchlist_chunk_once: a failed attempt changes nothing, an accepted one appends what there is room for.
     */
    method FetchOnce(index: nat, answer: Answer) returns (ret: int)
      requires Shaped()
      requires match answer case Failed(code) => code < 0 case Got(r) => |r| == REPLY_SIZE
      modifies this`count, addrs
      ensures Shaped()
      ensures ret < 0 <==> !Acceptable(answer, index, seal)
      ensures ret < 0 ==> count == old(count) && addrs[..] == old(addrs[..])
      ensures ret >= 0 ==>
        && ret == (if Final(answer.reply) then 1 else 0)
        && addrs[..count] == Capped(old(addrs[..count]) + AddrsOf(answer.reply, AddrCount(answer.reply)))
    {
      match answer
      case Failed(code) => ret := code;
      case Got(r) =>
        ret := Check(r, index);
        if ret == 0 {
          var intact := CheckSum(r);
          if !intact {
            ret := -103;
          } else {
            Append(r, AddrCount(r));
            ret := if Final(r) then 1 else 0;
          }
        }
    }

    method CheckSum(r: Reply) returns (intact: bool)
      requires IsCrc(seal) && |r| == REPLY_SIZE && AddrCount(r) <= CHUNK_ADDRS
      ensures intact == Intact(r, seal)
    {
      var pl := 12 + 4 * AddrCount(r);
      var crc := Crc.Crc32(r[..pl]);
      var t := r[pl..][..4];
      CrcIs(seal, r[..pl], t);
      intact := crc == TrailerWord(t[0], t[1], t[2], t[3]);
    }

    /** Address by address, until the chunk or the room ends. */
    method Append(r: Reply, n: nat)
      requires Shaped() && |r| == REPLY_SIZE && n <= CHUNK_ADDRS
      modifies this`count, addrs
      ensures Shaped() && addrs[..count] == Capped(old(addrs[..count]) + AddrsOf(r, n))
    {
      ghost var was := addrs[..count];
      var i := 0;
      while i < n && count < addrs.Length
        invariant Shaped() && i <= n && count == |was| + i && addrs[..count] == was + AddrsOf(r, i)
      {
        addrs[count] := W(r, 12 + 4 * i);
        SliceSnoc(addrs[..], 0, count);
        count, i := count + 1, i + 1;
      }
      AddrsPrefix(r, i, n);
      assert was + AddrsOf(r, n) == was + AddrsOf(r, i) + AddrsOf(r, n)[i..];
    }

    /** ra_fetch_watchlist_chunk: up to three attempts. */
    method FetchChunk(index: nat, link: Link) returns (ret: int, ghost reply: Reply)
      requires Shaped() && Sane(link)
      modifies this`count, addrs
      ensures Shaped()
      ensures ret < 0 ==> count == old(count) && addrs[..] == old(addrs[..]) && Missed(link, index, seal)
      ensures ret >= 0 ==>
        && FirstOf(link, index, reply, seal) && ret == (if Final(reply) then 1 else 0)
        && addrs[..count] == Capped(old(addrs[..count]) + AddrsOf(reply, AddrCount(reply)))
    {
      ret, reply := -1, [];
      var a := 0;
      while a < ATTEMPTS && ret < 0
        invariant Shaped() && a <= ATTEMPTS
        invariant ret < 0 ==>
          && count == old(count) && addrs[..] == old(addrs[..])
          && forall b :: 0 <= b < a ==> !Acceptable(link(index, b), index, seal)
        invariant ret >= 0 ==>
          && FirstOf(link, index, reply, seal) && ret == (if Final(reply) then 1 else 0)
          && addrs[..count] == Capped(old(addrs[..count]) + AddrsOf(reply, AddrCount(reply)))
      {
        var answer := link(index, a);
        assert addrs[..count] == old(addrs[..count]);
        ret := FetchOnce(index, answer);
        if ret >= 0 {
          reply := answer.reply;
          assert CameAt(link, index, reply, seal, a);
        }
        a := a + 1;
      }
    }

    /**
     * ra_fetch_watchlist: the list is as much of the accepted chunks as there is room for. It succeeds with
     * the first chunk that says it is the last, and fails only when a chunk is missed or none of 32 says so.
     */
    method Fetch(link: Link) returns (ret: int, ghost chunks: seq<Reply>)
      requires Shaped() && Sane(link)
      modifies this`count, addrs
      ensures Shaped() && Course(link, chunks, seal) && addrs[..count] == Capped(Gathered(chunks))
      ensures ret <= 0 && (ret == 0 <==> Complete(chunks))
      ensures ret < 0 ==> Missed(link, |chunks|, seal) || (|chunks| == MOST_CHUNKS && ret == NEVER_LAST)
      ensures |chunks| <= MOST_CHUNKS
    {
      count, chunks, ret := 0, [], 0;
      assert addrs[..0] == [];
      var index := 0;
      while index < MOST_CHUNKS && ret == 0
        invariant Shaped() && Course(link, chunks, seal) && addrs[..count] == Capped(Gathered(chunks))
        invariant ret <= 1 && (ret == 1 <==> Complete(chunks)) && (ret < 0 ==> Missed(link, |chunks|, seal))
        invariant index <= MOST_CHUNKS && |chunks| <= MOST_CHUNKS && (ret == 0 ==> index == |chunks|)
        decreases MOST_CHUNKS - index, ret == 0
      {
        ghost var reply;
        ret, reply := FetchChunk(index, link);
        if ret >= 0 {
          CappedTwice(Gathered(chunks), AddrsOf(reply, AddrCount(reply)));
          GatheredSnoc(chunks, reply);
          CourseSnoc(link, chunks, reply, seal);
          chunks := chunks + [reply];
          index := index + 1;
        }
      }
      if ret == 0 {
        ret := NEVER_LAST;
      } else if ret == 1 {
        ret := 0;
      }
    }
  }

  /**
   * ra_do_resync: the announced number is taken over with a complete list only. A fetch that fails has
   * already cleared the list: what it got so far stands there under the old number.
   */
  method Resync(l: List, link: Link, pending: bool, seqno: nat, announced: nat)
    returns (now: nat, ghost chunks: seq<Reply>)
    requires l.Shaped() && Sane(link)
    modifies l`count, l.addrs
    ensures l.Shaped()
    ensures !pending ==> now == seqno && l.count == old(l.count) && l.addrs[..] == old(l.addrs[..])
    ensures pending ==>
      && Course(link, chunks, l.seal) && l.addrs[..l.count] == Capped(Gathered(chunks))
      && now == if Complete(chunks) then announced else seqno
    ensures pending && Missed(link, 0, l.seal) ==> l.count == 0 && now == seqno
  {
    now, chunks := seqno, [];
    if pending {
      var ret;
      ret, chunks := l.Fetch(link);
      if ret == 0 {
        now := announced;
      }
      if chunks != [] {
        assert FirstOf(link, 0, chunks[0], l.seal);
      }
    }
  }

  lemma {:induction false} AddrsPrefix(r: Reply, i: nat, n: nat)
    requires |r| == REPLY_SIZE && i <= n <= CHUNK_ADDRS
    ensures AddrsOf(r, n)[..i] == AddrsOf(r, i)
  {
    if i < n {
      AddrsPrefix(r, i, n - 1);
    } else {
      assert AddrsOf(r, n)[..n] == AddrsOf(r, n);
    }
  }

  function Low3(i: nat): (b: bv8)
    requires i < 8
    ensures b as int == i
  {
    if i == 0 then 0 else if i == 1 then 1 else if i == 2 then 2 else if i == 3 then 3
    else if i == 4 then 4 else if i == 5 then 5 else if i == 6 then 6 else 7
  }

  /** The bytes of a checksum, first the high ones. */
  lemma {:induction false} TrailerBack(c: bv32)
    ensures TrailerWord(((c >> 24) & 0xFF) as bv8, ((c >> 16) & 0xFF) as bv8, ((c >> 8) & 0xFF) as bv8,
      (c & 0xFF) as bv8)
         == c
  {
  }

  /** The header of a full chunk. */
  function FullHeader(i: nat, final: bool): (h: seq<bv8>)
    requires i < 8
    ensures |h| == 12 && h[0] as int == MAGIC && h[8] as int == 4 && h[9] as int == 0
    ensures h[6] as int == 0 && h[7] as int == i && (h[10] as int != 0 <==> final)
  {
    [0xAE, 0, 0, 0, 0, 0, 0, Low3(i), 4, 0, if final then 1 else 0, 0]
  }

  predicate FullChunk(r: Reply, i: nat, final: bool) {
    |r| == REPLY_SIZE && Check(r, i) == 0 && AddrCount(r) == CHUNK_ADDRS && Final(r) == final
  }

  /** A chunk of 1024 addresses with its checksum. */
  method MakeChunk(i: nat, final: bool) returns (r: Reply)
    requires i < 8
    ensures FullChunk(r, i, final) && Intact(r, CrcSeal)
  {
    var p := FullHeader(i, final) + seq(4 * CHUNK_ADDRS, _ => 0);
    var c := Crc.Crc32(p);
    var t: seq<bv8> := [((c >> 24) & 0xFF) as bv8, ((c >> 16) & 0xFF) as bv8, ((c >> 8) & 0xFF) as bv8,
      (c & 0xFF) as bv8];
    TrailerBack(c);
    r := p + t + [0, 0];
    assert r[..12 + 4 * CHUNK_ADDRS] == p && r[12 + 4 * CHUNK_ADDRS..][..4] == t;
    assert forall k :: 0 <= k < 12 ==> r[k] == FullHeader(i, final)[k];
  }

  /** Seven full chunks, the last of which says so. */
  predicate SevenFull(rs: seq<Reply>) { |rs| == 7 && forall i :: 0 <= i < 7 ==> FullChunk(rs[i], i, i == 6) }

  lemma {:induction false} SevenTotal(rs: seq<Reply>)
    requires SevenFull(rs)
    ensures Sized(rs) && Total(rs) == 7 * CHUNK_ADDRS
  {
    TotalFull(rs, 7);
    assert rs[..7] == rs;
  }

  lemma {:induction false} TotalFull(rs: seq<Reply>, n: nat)
    requires SevenFull(rs) && n <= 7
    ensures Sized(rs[..n]) && Total(rs[..n]) == n * CHUNK_ADDRS
  {
    if n > 0 {
      TotalFull(rs, n - 1);
      assert rs[..n][..n - 1] == rs[..n - 1];
    }
  }

  /** A fetch over such a link takes all seven. */
  lemma {:induction false} SevenTaken(link: Link, rs: seq<Reply>, chunks: seq<Reply>, seal: Seal)
    requires SevenFull(rs) && (forall i, a :: 0 <= i < 7 ==> link(i, a) == Got(rs[i])) && Course(link, chunks, seal)
    requires Complete(chunks) || |chunks| >= 7
    ensures chunks == rs
  {
    forall i | 0 <= i < |chunks| && i < 7
      ensures chunks[i] == rs[i]
    {
      assert FirstOf(link, i, chunks[i], seal);
      var a: nat :| CameAt(link, i, chunks[i], seal, a);
    }
    assert |chunks| >= 7 ==> Final(chunks[6]);
  }

  /** A successful fetch that loses addresses: seven full chunks have 7168, and the list ends with 6144. */
  method OverlongSucceeds() returns (ret: int, kept: seq<u32>, ghost chunks: seq<Reply>)
    ensures ret == 0 && Sized(chunks) && Complete(chunks) && forall i :: 0 <= i < |chunks| ==>
      Proven(chunks[i], i, CrcSeal)
    ensures kept == Capped(Gathered(chunks)) && |kept| == WatchlistLog.MAX_ADDRS && Total(chunks) == 7168
  {
    var rs := MakeSeven();
    var link: Link := (i: nat, a: nat) => if i < |rs| then Got(rs[i]) else Failed(-1);
    var l := new List();
    ret, chunks := l.Fetch(link);
    forall i | 0 <= i < 7
      ensures !Missed(link, i, l.seal)
    {
      assert Acceptable(link(i, 0), i, l.seal);
    }
    SevenTaken(link, rs, chunks, l.seal);
    SevenTotal(rs);
    CappedExactly(rs);
    kept := l.addrs[..l.count];
  }

  method MakeSeven() returns (rs: seq<Reply>)
    ensures SevenFull(rs) && forall i :: 0 <= i < 7 ==> Intact(rs[i], CrcSeal)
  {
    rs := [];
    var i := 0;
    while i < 7
      invariant i <= 7 && |rs| == i && forall k :: 0 <= k < i ==> FullChunk(rs[k], k, k == 6) && Intact(rs[k], CrcSeal)
    {
      var r := MakeChunk(i, i == 6);
      rs := rs + [r];
      i := i + 1;
    }
  }
}
