/**
 * Any interleaving of f_lseek, f_read and f_write on the open files of one
 * volume behaves as the same operations on separate byte sequences.
 */
module FatSession {
  import opened Bytes
  import opened FatGeometry
  import opened FatChains
  import opened FatLayout
  import opened FatVolume
  import opened FatPosition
  import opened FatWrite
  import opened FatFile

  datatype Op = Seek(offset: nat) | Read(count: nat) | Write(data: seq<byte>)

  /** Broke: a bad entry stopped the write after so many bytes, and the file was aborted. Refused: it had been. */
  datatype Reply = Moved | Got(bytes: seq<byte>) | Put(count: nat) | NotAllowed | Refused | Broke(count: nat)

  /**
   * What an open file is to its user: its bytes, its position, how many clusters it has, and what may be done to it.
   */
  datatype Abstract =
    | Live(bytes: seq<byte>, pos: nat, clusters: nat, readable: bool, writable: bool)
    | Aborted

  /** One call, on the file with this number. */
  datatype Call = Call(file: nat, op: Op)

  /** The open files, and the clusters none of them has. */
  datatype State = State(files: seq<Abstract>, free: nat)

  /** The file after a call, the free clusters left, and the reply. */
  datatype Outcome = Outcome(file: Abstract, free: nat, reply: Reply)

  function Min(a: nat, b: nat): (m: nat) { if a < b then a else b }

  /** Bytes a write takes: none past 4 GB, else as many as the clusters at hand and the free ones hold. */
  function Taken(g: Geometry, s: Abstract, free: nat, len: nat): (n: nat)
    requires s.Live?
    ensures n <= len
  {
    if |s.bytes| + len >= U32 then 0 else Min(len, Room(g, s.clusters + free, s.pos))
  }

  /** Clusters after n bytes were written at the position. */
  function ClustersAfter(g: Geometry, s: Abstract, n: nat): (k: nat)
    requires g.Valid() && s.Live?
  {
    if n == 0 then s.clusters else Max(s.clusters, Needed(g, s.pos + n))
  }

  /** Free clusters after n bytes were written at the position. */
  function FreeAfter(g: Geometry, s: Abstract, free: nat, n: nat): (k: nat)
    requires g.Valid() && s.Live?
  {
    if s.clusters + free >= ClustersAfter(g, s, n) then s.clusters + free - ClustersAfter(g, s, n) else 0
  }

  predicate InPlace(s: Abstract) { s.Live? ==> s.pos <= |s.bytes| }

  /** A call on a byte sequence, with its only possible outcome on a volume without bad entries. */
  function Act(g: Geometry, s: Abstract, free: nat, op: Op): (o: Outcome)
    requires g.Valid() && InPlace(s)
    ensures InPlace(o.file) && !o.reply.Broke?
  {
    if s.Aborted? then Outcome(s, free, Refused)
    else
      match op
      case Seek(n) => Outcome(s.(pos := Min(n, |s.bytes|)), free, Moved)
      case Read(n) =>
        if !s.readable then Outcome(s, free, NotAllowed)
        else
          var end := s.pos + Min(n, |s.bytes| - s.pos);
          Outcome(s.(pos := end), free, Got(s.bytes[s.pos..end]))
      case Write(data) =>
        if !s.writable then Outcome(s, free, NotAllowed)
        else
          var n := Taken(g, s, free, |data|);
          var file := s.(bytes := Splice(s.bytes, s.pos, data[..n]), pos := s.pos + n,
            clusters := ClustersAfter(g, s, n));
          Outcome(file, FreeAfter(g, s, free, n), Put(n))
  }

  /** The only other outcome: a write that breaks off. */
  predicate Breaks(g: Geometry, s: Abstract, free: nat, op: Op, reply: Reply) {
    && s.Live? && op.Write? && s.writable && reply.Broke?
    && reply.count < |op.data| && reply.count <= Taken(g, s, free, |op.data|)
  }

  /** A call whose reply is known. */
  function Effect(g: Geometry, s: Abstract, free: nat, op: Op, reply: Reply): (o: Outcome)
    requires g.Valid() && InPlace(s)
    ensures InPlace(o.file)
  {
    if Breaks(g, s, free, op, reply) then Outcome(Aborted, FreeAfter(g, s, free, reply.count), reply)
    else Act(g, s, free, op)
  }

  /**
   * The replies a call may get: the one of the byte sequence or, on a volume with a bad entry, that a write broke off.
   */
  predicate Legit(g: Geometry, bad: bool, s: Abstract, free: nat, op: Op, reply: Reply)
    requires g.Valid() && InPlace(s)
  {
    reply == Act(g, s, free, op).reply || (bad && Breaks(g, s, free, op, reply))
  }

  predicate Placed(s: State) { forall i :: 0 <= i < |s.files| ==> InPlace(s.files[i]) }

  /** Calls on open files, with arguments of the width of the interface. */
  predicate Callable(c: Call, n: nat) {
    && c.file < n
    && (c.op.Seek? ==> c.op.offset < U32)
    && (c.op.Write? ==> |c.op.data| < U32)
  }

  /** A call on one file leaves the others exactly as they were. */
  function EffectOn(g: Geometry, s: State, c: Call, reply: Reply): (r: State)
    requires g.Valid() && Placed(s) && c.file < |s.files|
    ensures Placed(r) && |r.files| == |s.files|
  {
    var o := Effect(g, s.files[c.file], s.free, c.op, reply);
    State(s.files[c.file := o.file], o.free)
  }

  predicate AllCallable(calls: seq<Call>, n: nat) { forall i :: 0 <= i < |calls| ==> Callable(calls[i], n) }

  /** Where the first k calls lead when they get these replies. */
  function Follow(g: Geometry, start: State, calls: seq<Call>, replies: seq<Reply>, k: nat): (s: State)
    requires g.Valid() && Placed(start) && AllCallable(calls, |start.files|) && k <= |calls| && k <= |replies|
    ensures Placed(s) && |s.files| == |start.files|
  {
    if k == 0 then start
    else
      assert Callable(calls[k - 1], |start.files|);
      EffectOn(g, Follow(g, start, calls, replies, k - 1), calls[k - 1], replies[k - 1])
  }

  /** The reply to call number i is one it may get. */
  predicate LegitAt(g: Geometry, bad: bool, start: State, calls: seq<Call>, replies: seq<Reply>, i: nat)
    requires g.Valid() && Placed(start) && AllCallable(calls, |start.files|) && i < |calls| && i < |replies|
  {
    assert Callable(calls[i], |start.files|);
    var s := Follow(g, start, calls, replies, i);
    Legit(g, bad, s.files[calls[i].file], s.free, calls[i].op, replies[i])
  }

  predicate AllLegit(g: Geometry, bad: bool, start: State, calls: seq<Call>, replies: seq<Reply>, n: nat)
    requires g.Valid() && Placed(start) && AllCallable(calls, |start.files|) && n <= |calls| && n <= |replies|
  {
    forall i :: 0 <= i < n ==> LegitAt(g, bad, start, calls, replies, i)
  }

  /** A run of calls on byte sequences: where it ends and what it replies. */
  function Run(g: Geometry, start: State, calls: seq<Call>): (r: (State, seq<Reply>))
    requires g.Valid() && Placed(start) && AllCallable(calls, |start.files|)
    ensures Placed(r.0) && |r.0.files| == |start.files| && |r.1| == |calls|
    decreases |calls|
  {
    if calls == [] then (start, [])
    else
      var before := Run(g, start, calls[..|calls| - 1]);
      var c := calls[|calls| - 1];
      assert Callable(c, |start.files|);
      var o := Act(g, before.0.files[c.file], before.0.free, c.op);
      (State(before.0.files[c.file := o.file], o.free), before.1 + [o.reply])
  }

  lemma {:induction false} FollowPrefix(g: Geometry, start: State, calls: seq<Call>, replies: seq<Reply>, n: nat,
                                        k: nat)
    requires g.Valid() && Placed(start) && AllCallable(calls, |start.files|) && k <= n <= |calls| && n <= |replies|
    ensures Follow(g, start, calls[..n], replies[..n], k) == Follow(g, start, calls, replies, k)
  {
    if k > 0 {
      FollowPrefix(g, start, calls, replies, n, k - 1);
    }
  }

  /** Without bad entries the replies and the end are those of the byte sequences. */
  lemma {:induction false} CleanRun(g: Geometry, start: State, calls: seq<Call>, replies: seq<Reply>)
    requires g.Valid() && Placed(start) && AllCallable(calls, |start.files|) && |replies| == |calls|
    requires AllLegit(g, false, start, calls, replies, |calls|)
    ensures Run(g, start, calls) == (Follow(g, start, calls, replies, |calls|), replies)
    decreases |calls|
  {
    if calls != [] {
      var n := |calls| - 1;
      forall i | 0 <= i < n
        ensures LegitAt(g, false, start, calls[..n], replies[..n], i)
      {
        assert LegitAt(g, false, start, calls, replies, i);
        FollowPrefix(g, start, calls, replies, n, i);
      }
      CleanRun(g, start, calls[..n], replies[..n]);
      FollowPrefix(g, start, calls, replies, n, n);
      assert LegitAt(g, false, start, calls, replies, n);
      assert replies == replies[..n] + [replies[n]];
    }
  }

  ghost function View(f: File): (s: Abstract)
    requires f.Usable()
    reads f, f.fs`disk, f.fs`winsect, f.fs`wflag, f.fs.win
    ensures InPlace(s)
  {
    if f.aborted then Aborted else Live(f.Bytes(), f.fptr, |f.chain|, f.readable, f.writable)
  }

  /** A file of this volume, aborted or not. */
  ghost predicate Ready(v: Volume, f: File)
    reads f, v`disk, v`winsect, v`wflag, v.win
  {
    f.fs == v && f.Usable()
  }

  ghost predicate Apart(f: File, other: File)
    reads f`chain, f`aborted, other`chain, other`aborted
  {
    f != other && (!f.aborted && !other.aborted ==> Disjoint(f.chain, other.chain))
  }

  /** Files open on one volume, on chains apart. */
  ghost predicate Open(v: Volume, fs: seq<File>)
    reads fs, v`disk, v`winsect, v`wflag, v.win
  {
    && v.Valid()
    && (forall i :: 0 <= i < |fs| ==> Ready(v, fs[i]))
    && (forall i, j :: 0 <= i < |fs| && 0 <= j < |fs| && i != j ==> Apart(fs[i], fs[j]))
  }

  /** What the open files show to their users. */
  ghost predicate Shows(v: Volume, fs: seq<File>, s: State)
    requires Open(v, fs)
    reads fs, v`disk, v`winsect, v`wflag, v.win
  {
    && |s.files| == |fs| && s.free == FreeCount(v.Entries())
    && forall i :: 0 <= i < |fs| ==> Ready(v, fs[i]) && View(fs[i]) == s.files[i]
  }

  /** The other file object stays valid and keeps its bytes. */
  lemma {:induction false} OtherKept(g: Geometry, d: seq<Sector>, d': seq<Sector>, ch: seq<nat>, ch': seq<nat>,
                                     size: nat, p: nat,
                  data: seq<byte>,
                  other: seq<nat>, sclust: nat, osize: nat, pos: nat, clust: nat, dsect: nat)
    requires Wrote(g, d, d', ch, ch', size, p, data)
    requires FileOk(g, d, other, sclust, osize, pos, clust, dsect) && Disjoint(other, ch)
    ensures FileOk(g, d', other, sclust, osize, pos, clust, dsect)
    ensures Disjoint(other, ch') && Disjoint(ch', other) && Clusters(g, other)
    ensures Contents(g, d', other, osize) == Contents(g, d, other, osize)
  {
    OtherFileUntouched(g, d, d', ch, ch', other, osize);
  }

  /** Equal FAT copies stay equal, an exact free count stays exact, and no bad entry appears. */
  twostate predicate Sound(v: Volume)
    reads v, v.win
  {
    && old(v.Valid()) && v.Valid()
    && Keeps(v.g, old(v.Logical()), v.Logical())
    && (old(v.FreeExact()) ==> v.FreeExact())
  }

  /** f_read into a buffer of its own. */
  method Fetch(f: File, n: nat) returns (b: seq<byte>)
    requires f.Valid() && f.readable && !f.aborted
    modifies f`fptr, f`clust, f`dsect, f.fs`disk, f.fs`winsect, f.fs`wflag, f.fs.win
    ensures f.Valid() && f.fs.Logical() == old(f.fs.Logical())
    ensures f.fptr == old(f.fptr) + Min(n, f.fsize - old(f.fptr)) && b == f.Bytes()[old(f.fptr)..f.fptr]
  {
    var buff := new byte[n];
    ghost var b0, p := buff[..], f.fptr;
    var res, br := f.Read(buff, n);
    BlitHead(b0, f.Bytes()[p..f.fptr]);
    b := buff[..];
    b := b[..br];
  }

  /** The accounts of f_write are those of the abstract call. */
  lemma {:induction false} WriteActs(g: Geometry, t: seq<nat>, t': seq<nat>, ch: seq<nat>, ch': seq<nat>, s: Abstract,
                                     data: seq<byte>, bw: nat)
    requires g.Valid() && |t| >= 2 && s.Live? && InPlace(s) && s.writable && s.clusters == |ch| && bw <= |data|
    requires Spent(t, t', ch, ch', if bw == 0 then 0 else Needed(g, s.pos + bw))
    ensures FreeAfter(g, s, FreeCount(t), bw) == FreeCount(t') && ClustersAfter(g, s, bw) == |ch'|
  {
  }

  /** A write that ran its course, or broke off. */
  lemma {:induction false} WriteEffect(g: Geometry, t: seq<nat>, t': seq<nat>, ch: seq<nat>, ch': seq<nat>,
                                       s: Abstract, s': Abstract,
                                       data: seq<byte>, bw: nat, r: Reply)
    requires g.Valid() && |t| >= 2 && s.Live? && InPlace(s) && s.writable && s.clusters == |ch| && bw <= |data|
    requires Spent(t, t', ch, ch', if bw == 0 then 0 else Needed(g, s.pos + bw))
    requires s'.Aborted? ==>
      r == Broke(bw) && bw < |data| && bw <= Writable(g, t, ch, |s.bytes|, s.pos, |data|) && !NoBad(t)
    requires s'.Live? ==>
      && r == Put(bw) && bw == Writable(g, t, ch, |s.bytes|, s.pos, |data|)
      && s'.bytes == Splice(s.bytes, s.pos, data[..bw]) && s'.pos == s.pos + bw && s'.clusters == |ch'|
      && s'.readable == s.readable && s'.writable
    ensures Legit(g, !NoBad(t), s, FreeCount(t), Write(data), r)
    ensures Outcome(s', FreeCount(t'), r) == Effect(g, s, FreeCount(t), Write(data), r)
  {
    WriteActs(g, t, t', ch, ch', s, data, bw);
  }

  /** The file was written to, or nothing on the volume changed. */
  twostate predicate Touched(f: File, data: seq<byte>, bw: nat)
    reads f, f.fs, f.fs.win
  {
    && old(f.fs.Valid()) && f.fs.Valid()
    && if old(f.aborted) then f.aborted && f.fs.Logical() == old(f.fs.Logical())
       else Took(f.fs.g, old(f.fs.Logical()), f.fs.Logical(), old(f.chain), f.chain, old(f.fsize), old(f.fptr), data,
         bw)
  }

  /** f_write on a file that may be written. */
  method StoreLive(f: File, data: seq<byte>) returns (r: Reply, bw: nat)
    requires f.Valid() && !f.aborted && f.writable && |data| < U32
    modifies f, f.fs, f.fs.win
    ensures f.Usable() && Sound(f.fs) && Touched(f, data, bw)
    ensures Legit(f.fs.g, !NoBad(old(f.fs.Entries())), old(View(f)), FreeCount(old(f.fs.Entries())), Write(data), r)
    ensures Outcome(View(f), FreeCount(f.fs.Entries()), r)
         == Effect(f.fs.g, old(View(f)), FreeCount(old(f.fs.Entries())), Write(data), r)
  {
    ghost var t, ch, s := f.fs.Entries(), f.chain, View(f);
    var res;
    res, bw := f.Write(data);
    r := if f.aborted then Broke(bw) else Put(bw);
    ghost var t', s' := f.fs.Entries(), View(f);
    WriteEffect(f.fs.g, t, t', ch, f.chain, s, s', data, bw, r);
  }

  /** f_write on an open file by itself. */
  method Store(f: File, data: seq<byte>) returns (r: Reply, bw: nat)
    requires f.Usable() && |data| < U32
    modifies f, f.fs, f.fs.win
    ensures f.Usable() && Sound(f.fs) && Touched(f, data, bw)
    ensures Legit(f.fs.g, !NoBad(old(f.fs.Entries())), old(View(f)), FreeCount(old(f.fs.Entries())), Write(data), r)
    ensures Outcome(View(f), FreeCount(f.fs.Entries()), r)
         == Effect(f.fs.g, old(View(f)), FreeCount(old(f.fs.Entries())), Write(data), r)
  {
    if !f.aborted && f.writable {
      r, bw := StoreLive(f, data);
    } else {
      r := if f.aborted then Refused else NotAllowed;
      var res;
      res, bw := f.Write(data);
    }
  }

  /** f_lseek on a live file. */
  method Move(f: File, offset: nat) returns (r: Reply)
    requires f.Valid() && !f.aborted && offset < U32
    modifies f, f.fs, f.fs.win
    ensures f.Valid() && f.fs.Logical() == old(f.fs.Logical()) && f.fs.freeClust == old(f.fs.freeClust)
    ensures f.chain == old(f.chain) && !f.aborted
    ensures Outcome(View(f), FreeCount(f.fs.Entries()), r)
         == Act(f.fs.g, old(View(f)), FreeCount(old(f.fs.Entries())), Seek(offset))
  {
    var res := f.Seek(offset);
    r := Moved;
  }

  /** f_read on a live file that may be read. */
  method Get(f: File, n: nat) returns (r: Reply)
    requires f.Valid() && !f.aborted && f.readable
    modifies f, f.fs, f.fs.win
    ensures f.Valid() && f.fs.Logical() == old(f.fs.Logical()) && f.fs.freeClust == old(f.fs.freeClust)
    ensures f.chain == old(f.chain) && !f.aborted
    ensures Outcome(View(f), FreeCount(f.fs.Entries()), r)
         == Act(f.fs.g, old(View(f)), FreeCount(old(f.fs.Entries())), Read(n))
  {
    var b := Fetch(f, n);
    r := Got(b);
  }

  /** f_lseek and f_read. */
  method Look(f: File, op: Op) returns (r: Reply)
    requires f.Usable() && !op.Write? && (op.Seek? ==> op.offset < U32)
    modifies f, f.fs, f.fs.win
    ensures f.Usable() && f.fs.Logical() == old(f.fs.Logical()) && f.fs.freeClust == old(f.fs.freeClust)
    ensures f.chain == old(f.chain) && f.aborted == old(f.aborted)
    ensures Outcome(View(f), FreeCount(f.fs.Entries()), r)
         == Act(f.fs.g, old(View(f)), FreeCount(old(f.fs.Entries())), op)
  {
    if f.aborted {
      r := Refused;
    } else if op.Seek? {
      r := Move(f, op.offset);
    } else if f.readable {
      r := Get(f, op.count);
    } else {
      r := NotAllowed;
    }
  }

  /** One call on one file by itself. */
  method Perform(f: File, op: Op) returns (r: Reply, ghost data: seq<byte>, ghost bw: nat)
    requires f.Usable()
    requires (op.Seek? ==> op.offset < U32) && (op.Write? ==> |op.data| < U32)
    modifies f, f.fs, f.fs.win
    ensures f.Usable() && Sound(f.fs) && Touched(f, data, bw)
    ensures Legit(f.fs.g, !NoBad(old(f.fs.Entries())), old(View(f)), FreeCount(old(f.fs.Entries())), op, r)
    ensures Outcome(View(f), FreeCount(f.fs.Entries()), r)
         == Effect(f.fs.g, old(View(f)), FreeCount(old(f.fs.Entries())), op, r)
  {
    if op.Write? {
      data := op.data;
      r, bw := Store(f, op.data);
    } else {
      data, bw := [], 0;
      if !f.aborted {
        ChainClusters(f.fs.g, f.fs.Entries(), f.chain);
        TookNothing(f.fs.g, f.fs.Logical(), f.chain, f.fsize, f.fptr, []);
      }
      r := Look(f, op);
    }
  }

  /** A live file beside the one written to: valid as before, with the same bytes. */
  lemma {:induction false} BesideKept(v: Volume, f: File, d: seq<Sector>, ch: seq<nat>, ch': seq<nat>, size: nat,
                                      p: nat, data: seq<byte>)
    requires v.Valid() && f.fs == v && Wrote(v.g, d, v.Logical(), ch, ch', size, p, data)
    requires FileOk(v.g, d, f.chain, f.sclust, f.fsize, f.fptr, f.clust, f.dsect) && Disjoint(f.chain, ch)
    ensures f.Valid() && Disjoint(f.chain, ch') && Disjoint(ch', f.chain) && Clusters(v.g, f.chain)
    ensures f.Bytes() == Contents(v.g, d, f.chain, f.fsize)
  {
    OtherKept(v.g, d, v.Logical(), ch, ch', size, p, data, f.chain, f.sclust, f.fsize, f.fptr, f.clust, f.dsect);
  }

  /** One call, on the file it names, beside all the others. */
  method Serve(v: Volume, fs: seq<File>, call: Call, ghost s: State) returns (r: Reply)
    requires Open(v, fs) && Shows(v, fs, s) && Placed(s) && Callable(call, |fs|)
    modifies fs[call.file], v, v.win
    ensures Open(v, fs) && Sound(v)
    ensures Legit(v.g, !NoBad(old(v.Entries())), s.files[call.file], s.free, call.op, r)
    ensures Shows(v, fs, EffectOn(v.g, s, call, r))
  {
    var f := fs[call.file];
    ghost var d, ch, size, p, live := v.Logical(), f.chain, f.fsize, f.fptr, !f.aborted;
    ghost var data, bw;
    assert Ready(v, f) && View(f) == s.files[call.file];
    r, data, bw := Perform(f, call.op);
    forall j | 0 <= j < |fs| && j != call.file
      ensures Ready(v, fs[j]) && View(fs[j]) == s.files[j] && Apart(f, fs[j]) && Apart(fs[j], f)
    {
      if live && !fs[j].aborted {
        BesideKept(v, fs[j], d, ch, f.chain, size, p, data[..bw]);
      }
    }
  }

  /**
   * Any number of files, any sequence of calls: every reply and the final state are those of separate byte
   * sequences, except that on a volume with a bad entry a write may break off and take its own file, and no
   * other, out of use. The FAT copies stay equal and the free count exact if they were.
   */
  method Session(v: Volume, fs: seq<File>, calls: seq<Call>, ghost start: State) returns (replies: seq<Reply>)
    requires Open(v, fs) && Shows(v, fs, start) && Placed(start) && AllCallable(calls, |fs|)
    modifies fs, v, v.win
    ensures Open(v, fs) && Sound(v) && |replies| == |calls|
    ensures AllLegit(v.g, !NoBad(old(v.Entries())), start, calls, replies, |calls|)
    ensures Shows(v, fs, Follow(v.g, start, calls, replies, |calls|))
    ensures NoBad(old(v.Entries())) ==> (Follow(v.g, start, calls, replies, |calls|), replies) == Run(v.g, start, calls)
  {
    ghost var bad := !NoBad(v.Entries());
    replies := [];
    var n := 0;
    while n < |calls|
      invariant 0 <= n <= |calls| && n == |replies| && Open(v, fs) && Sound(v)
      invariant AllLegit(v.g, bad, start, calls, replies, n)
      invariant Shows(v, fs, Follow(v.g, start, calls, replies, n))
    {
      ghost var before := Follow(v.g, start, calls, replies, n);
      var r := Serve(v, fs, calls[n], before);
      LegitGrows(v.g, bad, start, calls, replies, r);
      replies := replies + [r];
      n := n + 1;
    }
    if !bad {
      CleanRun(v.g, start, calls, replies);
    }
  }

  lemma {:induction false} FollowGrows(g: Geometry, start: State, calls: seq<Call>, replies: seq<Reply>, r: Reply,
                                       k: nat)
    requires g.Valid() && Placed(start) && AllCallable(calls, |start.files|) && k <= |replies| < |calls|
    ensures Follow(g, start, calls, replies + [r], k) == Follow(g, start, calls, replies, k)
  {
    if k > 0 {
      FollowGrows(g, start, calls, replies, r, k - 1);
    }
  }

  /** One more reply. */
  lemma {:induction false} LegitGrows(g: Geometry, bad: bool, start: State, calls: seq<Call>, replies: seq<Reply>,
                                      r: Reply)
    requires g.Valid() && Placed(start) && AllCallable(calls, |start.files|) && |replies| < |calls|
    requires AllLegit(g, bad, start, calls, replies, |replies|)
    requires var s := Follow(g, start, calls, replies, |replies|);
             var c := calls[|replies|];
             assert Callable(c, |start.files|);
             Legit(g, bad, s.files[c.file], s.free, c.op, r)
    ensures AllLegit(g, bad, start, calls, replies + [r], |replies| + 1)
    ensures Follow(g, start, calls, replies + [r], |replies| + 1)
         == (assert Callable(calls[|replies|], |start.files|);
             EffectOn(g, Follow(g, start, calls, replies, |replies|), calls[|replies|], r))
  {
    FollowGrows(g, start, calls, replies, r, |replies|);
    forall i | 0 <= i < |replies|
      ensures LegitAt(g, bad, start, calls, replies + [r], i)
    {
      assert LegitAt(g, bad, start, calls, replies, i);
      FollowGrows(g, start, calls, replies, r, i);
    }
  }
}
