/** The reader: index, search, and reads of sectors, parts of sectors and bytes. */
module FragReader {
  import opened Bytes
  import opened Arithmetic
  import opened FragList
  import opened FragTrail
  import opened FragDisc

  /** A read that did what it should: the code, and on 0 the bytes at `pos` of a buffer that held `start`. */
  predicate Did(g: Got, r: int, now: seq<byte>, start: seq<byte>, pos: nat) {
    && r == g.code
    && (r == 0 ==> pos + |g.bytes| <= |start| && now == Blit(start, pos, g.bytes))
  }

  /** One piece and, unless it failed, the others behind it. */
  lemma {:induction false} DidNext(d: Disc, b: nat, n: nat, rest: seq<nat>, first: int, r: int, was: seq<byte>,
                                   now: seq<byte>, start: seq<byte>, pos: nat)
    requires d.unit > 0 && Did(Piece(d, b, n), first, was, start, pos)
    requires if first == 0 then Did(PiecesGot(d, b + n, rest), r, now, was, pos + n) else r == first
    ensures Did(PiecesGot(d, b, [n] + rest), r, now, start, pos)
  {
    assert ([n] + rest)[1..] == rest;
    if r == 0 {
      BlitSplit(start, pos, Piece(d, b, n).bytes, PiecesGot(d, b + n, rest).bytes);
    }
  }

  /** One piece alone. */
  lemma {:induction false} DidOne(d: Disc, b: nat, n: nat, r: int, now: seq<byte>, start: seq<byte>, pos: nat)
    requires d.unit > 0 && Did(Piece(d, b, n), r, now, start, pos)
    ensures Did(PiecesGot(d, b, [n]), r, now, start, pos)
  {
    assert [n] + [] == [n];
    DidNext(d, b, n, [], r, r, now, now, start, pos);
  }

  /** Two pieces. */
  lemma {:induction false} DidTwo(d: Disc, b: nat, m: nat, k: nat, tail: nat, first: int, r: int, was: seq<byte>,
                                  now: seq<byte>, start: seq<byte>, pos: nat)
    requires d.unit > 0 && Did(Piece(d, b, m), first, was, start, pos) && tail == pos + m
    requires if first == 0 then Did(Piece(d, b + m, k), r, now, was, tail) else r == first
    ensures Did(PiecesGot(d, b, [m] + [k]), r, now, start, pos)
  {
    if first == 0 {
      DidOne(d, b + m, k, r, now, was, tail);
    }
    DidNext(d, b, m, [k], first, r, was, now, start, pos);
  }

  /** The two pieces of a request that starts on a sector boundary. */
  lemma {:induction false} DidRest(d: Disc, b: nat, len: nat, m: nat, k: nat, tail: nat, first: int, r: int,
                                   was: seq<byte>, now: seq<byte>, start: seq<byte>, pos: nat)
    requires d.unit > 0 && m == Whole(d.unit, len) && k == len - m && tail == pos + m
    requires Did(Piece(d, b, m), first, was, start, pos)
    requires if first == 0 then Did(Piece(d, b + m, k), r, now, was, tail) else r == first
    ensures Did(PiecesGot(d, b, Rest(d.unit, len)), r, now, start, pos)
  {
    DidTwo(d, b, m, k, tail, first, r, was, now, start, pos);
  }

  /** The three pieces of a request. */
  lemma {:induction false} DidRead(d: Disc, b: nat, len: nat, n: nat, rest: nat, at: nat, first: int, r: int,
                                   was: seq<byte>, now: seq<byte>, start: seq<byte>, pos: nat)
    requires d.unit > 0 && n == Head(d.unit, b, len) && rest == len - n && at == pos + n
    requires Did(Piece(d, b, n), first, was, start, pos)
    requires if first == 0 then Did(PiecesGot(d, b + n, Rest(d.unit, rest)), r, now, was, at) else r == first
    ensures Did(ReadGot(d, b, len), r, now, start, pos)
  {
    DidNext(d, b, n, Rest(d.unit, rest), first, r, was, now, start, pos);
  }

  /** A piece of no bytes. */
  lemma {:induction false} DidNone(d: Disc, b: nat, n: nat, now: seq<byte>, pos: nat)
    requires d.unit > 0 && n == 0 && pos <= |now|
    ensures Did(Piece(d, b, n), 0, now, now, pos)
  {
  }

  /** Pieces of no bytes. */
  lemma {:induction false} DidNothing(d: Disc, b: nat, len: nat, now: seq<byte>, pos: nat)
    requires d.unit > 0 && pos <= |now| && len == 0
    ensures Did(PiecesGot(d, b, Rest(d.unit, len)), 0, now, now, pos)
  {
    DidNone(d, b, 0, now, pos);
    DidTwo(d, b, 0, 0, pos, 0, 0, now, now, now, pos);
  }

  /** A sector read on its way: places delivered so far and, if the last search failed, the code. */
  ghost predicate Underway(q: Setup, offset: nat, len: nat, o: nat, l: nat, r: int, done: seq<Place>) {
    && offset <= o && o + l == offset + len && |done| == o - offset
    && if r == 0 then Follow(q, offset, len) == Trail(Follow(q, o, l).code, done + Follow(q, o, l).places)
       else Follow(q, offset, len).code == r
  }

  /** One search more. */
  lemma {:induction false} Onward(q: Setup, offset: nat, len: nat, o: nat, l: nat, done: seq<Place>, h: Hit)
    requires Underway(q, offset, len, o, l, 0, done) && l > 0 && h == Found(q, o, l)
    ensures h.OutOfRange? ==> Underway(q, offset, len, o, l, -2, done)
    ensures h.Hit? && Failing(q, h) ==> Underway(q, offset, len, o, l, -3, done)
    ensures h.Hit? && !Failing(q, h) ==>
      var n := h.offset + h.count - o;
      Underway(q, offset, len, o + n, l - n, 0, done + Step(h, o))
  {
    if h.Hit? && !Failing(q, h) {
      var rest := Follow(q, h.offset + h.count, l - (h.offset + h.count - o)).places;
      assert done + (Step(h, o) + rest) == done + Step(h, o) + rest;
    }
  }

  lemma {:induction false} Arrived(q: Setup, offset: nat, len: nat, o: nat, done: seq<Place>)
    requires Underway(q, offset, len, o, 0, 0, done)
    ensures Follow(q, offset, len) == Trail(0, done)
  {
    assert done + Follow(q, o, 0).places == done;
  }

  class Reader {
    const disc: Disc
    const index: array<nat>
    const buffer: array<byte>
    /** The sector size is 2 to the power of bits. */
    const bits: nat

    ghost predicate Valid()
      reads index
    {
      && Sound(disc.list) && index.Length == MAX_INDEX && buffer.Length == disc.unit
      && bits >= 2 && disc.unit == Power(bits)
      && forall i :: 0 <= i < MAX_INDEX ==> Skippable(disc.list.frags, index[i], i * CHUNK)
    }

    /** __Frag_OptimizeList fills the index: fragments before an entry end before its chunk starts. */
    constructor (d: Disc, ghost k: nat)
      requires Sound(d.list) && d.unit == Power(k) && k >= 2
      ensures Valid() && disc == d && fresh(index) && fresh(buffer)
    {
      var nb := GetNumBits(d.unit - 1);
      BitsOfSize(k);
      bits := nb;
      disc := d;
      index := new nat[MAX_INDEX](_ => 0);
      buffer := new byte[d.unit](_ => 0);
      new;
      var f := disc.list.frags;
      var i, at: nat := 0, 0;
      while i < MAX_INDEX
        invariant 0 <= i <= MAX_INDEX && Skippable(f, at, i * CHUNK)
        invariant forall k :: 0 <= k < i ==> Skippable(f, index[k], k * CHUNK)
      {
        var off := i * CHUNK;
        while at + 1 < |f| && off >= End(f[at])
          invariant Skippable(f, at, off)
        {
          at := at + 1;
        }
        index[i] := at;
        i := i + 1;
      }
    }

    /** The entry the search starts at. */
    function Start(offset: nat): (i: nat)
      requires index.Length == MAX_INDEX
      reads index
    {
      var c := offset / CHUNK;
      if c > MAX_INDEX then index[MAX_INDEX - 1] else if c == MAX_INDEX then disc.list.stray else index[c]
    }

    /** Where the index gives the start, the search is a scan of the whole list. */
    lemma {:induction false} StartScans(offset: nat, count: nat)
      requires Valid()
      ensures Scan(disc.list.frags, disc.list.size, Least(Start(offset), |disc.list.frags|), offset, count)
           == Found(disc.list, offset, count)
    {
      var f, i := disc.list.frags, Start(offset);
      if offset / CHUNK != MAX_INDEX {
        assert Skippable(f, i, (if offset / CHUNK > MAX_INDEX then MAX_INDEX - 1 else offset / CHUNK) * CHUNK);
        ScanSkips(f, disc.list.size, Least(i, |f|), offset, count);
      }
    }

    /** __Frag_Get. */
    method Get(offset: nat, count: nat) returns (h: Hit)
      requires Valid()
      ensures h == Found(disc.list, offset, count)
    {
      var f := disc.list.frags;
      var i := Start(offset);
      StartScans(offset, count);
      while i < |f| && !Stops(f[i], offset, count)
        invariant Found(disc.list, offset, count) == Scan(f, disc.list.size, Least(i, |f|), offset, count)
        decreases |f| - i
      {
        i := i + 1;
      }
      if i >= |f| {
        h := if offset + count > disc.list.size then OutOfRange else Hit(offset + count, 0, 0);
      } else if Covers(f[i], offset) {
        var delta := offset - f[i].offset;
        h := Hit(offset, f[i].sector + delta, Least(f[i].count - delta, count));
      } else {
        var delta := f[i].offset - offset;
        h := Hit(f[i].offset, f[i].sector, Least(f[i].count, count - delta));
      }
    }

    /** memset, then the device transfer, for one answer of the search. */
    method Take(h: Hit, o: nat, data: array<byte>, pos: nat) returns (ok: bool)
      requires Valid() && h.Hit? && o <= h.offset
      requires pos + Product(h.offset + h.count - o, disc.unit) <= data.Length
      modifies data
      ensures ok == !Failing(disc.list, h)
      ensures ok ==> data[..] == Blit(old(data[..]), pos, Delivered(disc, Step(h, o)))
    {
      var delta := h.offset - o;
      var zeros := Product(delta, disc.unit);
      ghost var run := DeviceBytes(disc, Product(h.sector, disc.unit), Product(h.count, disc.unit));
      ProductSum(delta, h.count, disc.unit);
      StepDelivered(disc, h, o);
      if delta > 0 {
        MemCpy(data, pos, Zeros(zeros));
      }
      ok := true;
      if h.count > 0 {
        ok := !disc.list.fails(h.sector, h.count);
        if ok {
          MemCpy(data, pos + zeros, DeviceBytes(disc, Product(h.sector, disc.unit), Product(h.count, disc.unit)));
        }
      }
      if ok {
        BlitSplit(old(data[..]), pos, Zeros(zeros), run);
      }
    }

    /** __Frag_ReadSect: `len` sectors from `offset` on. */
    method ReadSect(offset: nat, data: array<byte>, pos: nat, len: nat) returns (r: int)
      requires Valid() && pos + Product(len, disc.unit) <= data.Length
      modifies data
      ensures var t := Follow(disc.list, offset, len);
              r == t.code && (r == 0 ==> data[..] == Blit(old(data[..]), pos, Delivered(disc, t.places)))
    {
      r := 0;
      var o: nat, l: nat, p: nat := offset, len, pos;
      ghost var done: seq<Place> := [];
      while r == 0 && l > 0
        invariant Filling(old(data[..]), data[..], pos, offset, len, o, l, p, r, done)
        decreases l, r == 0
      {
        r, o, l, p, done := ReadNext(old(data[..]), pos, offset, len, o, l, data, p, done);
      }
      if r == 0 {
        Arrived(disc.list, offset, len, o, done);
      }
    }

    /** A sector read on its way, and the buffer it fills. */
    ghost predicate Filling(start: seq<byte>, now: seq<byte>, pos: nat, offset: nat, len: nat, o: nat, l: nat, p: nat,
                            r: int, done: seq<Place>) {
      && disc.unit > 0 && |now| == |start| && Underway(disc.list, offset, len, o, l, r, done)
      && p == pos + Product(|done|, disc.unit) && p + Product(l, disc.unit) <= |start|
      && (r == 0 ==> now == Blit(start, pos, Delivered(disc, done)))
    }

    /** One round of the loop. */
    method ReadNext(ghost start: seq<byte>, ghost pos: nat, ghost offset: nat, ghost len: nat, o: nat, l: nat,
                    data: array<byte>, p: nat, ghost done: seq<Place>)
      returns (r: int, o': nat, l': nat, p': nat, ghost done': seq<Place>)
      requires Valid() && l > 0 && Filling(start, data[..], pos, offset, len, o, l, p, 0, done)
      modifies data
      ensures Filling(start, data[..], pos, offset, len, o', l', p', r, done') && (r == 0 ==> l' < l) && l' <= l
    {
      ghost var was := data[..];
      var n;
      ghost var step;
      r, n, step := ReadRound(o, l, data, p);
      ghost var now := data[..];
      o', l', p', done' := o + n, l - n, p + Product(n, disc.unit), done + step;
      FillNext(start, was, now, pos, offset, len, o, l, p, r, n, done, step, o', l', p', done');
    }

    /** What one search found, on the disc as it is. */
    ghost predicate Answer(o: nat, l: nat, r: int, n: nat, step: seq<Place>) {
      var h := Found(disc.list, o, l);
      if h.OutOfRange? then r == -2 && n == 0 && step == []
      else if Failing(disc.list, h) then r == -3 && n == 0 && step == []
      else r == 0 && 0 < n == h.offset + h.count - o <= l && step == Step(h, o)
    }

    lemma {:induction false} FillNext(start: seq<byte>, was: seq<byte>, now: seq<byte>, pos: nat, offset: nat, len: nat,
                                      o: nat, l: nat, p: nat, r: int, n: nat, done: seq<Place>, step: seq<Place>,
                                      o': nat, l': nat, p': nat, done': seq<Place>)
      requires Filling(start, was, pos, offset, len, o, l, p, 0, done) && l > 0 && Answer(o, l, r, n, step)
      requires o' == o + n && l' == l - n && p' == p + Product(n, disc.unit) <= |was| == |now| && done' == done + step
      requires r == 0 ==> now == Blit(was, p, Delivered(disc, step))
      ensures Filling(start, now, pos, offset, len, o', l', p', r, done')
    {
      FillMore(start, was, now, pos, offset, len, o, l, p, r, n, done, step);
    }

    lemma {:induction false} FillMore(start: seq<byte>, was: seq<byte>, now: seq<byte>, pos: nat, offset: nat, len: nat,
                                      o: nat, l: nat, p: nat, r: int, n: nat, done: seq<Place>, step: seq<Place>)
      requires Filling(start, was, pos, offset, len, o, l, p, 0, done) && l > 0 && Answer(o, l, r, n, step)
      requires |now| == |was| && p + Product(n, disc.unit) <= |was|
      requires r == 0 ==> now == Blit(was, p, Delivered(disc, step))
      ensures Filling(start, now, pos, offset, len, o + n, l - n, p + Product(n, disc.unit), r, done + step)
    {
      var h := Found(disc.list, o, l);
      Onward(disc.list, offset, len, o, l, done, h);
      if r == 0 {
        StepFills(start, was, now, pos, offset, len, o, l, p, n, done, step);
      } else {
        SearchFails(start, was, now, pos, offset, len, o, l, p, r, n, done, step);
      }
    }

    lemma {:induction false} SearchFails(start: seq<byte>, was: seq<byte>, now: seq<byte>, pos: nat, offset: nat,
                                         len: nat, o: nat, l: nat, p: nat, r: int, n: nat, done: seq<Place>,
                                         step: seq<Place>)
      requires Filling(start, was, pos, offset, len, o, l, p, 0, done) && |now| == |was| && r != 0
      requires Underway(disc.list, offset, len, o, l, r, done) && n == 0 && step == []
      ensures Filling(start, now, pos, offset, len, o + n, l - n, p + Product(n, disc.unit), r, done + step)
    {
      assert done + step == done;
    }

    lemma {:induction false} StepFills(start: seq<byte>, was: seq<byte>, now: seq<byte>, pos: nat, offset: nat,
                                       len: nat, o: nat, l: nat, p: nat, n: nat, done: seq<Place>, step: seq<Place>)
      requires Filling(start, was, pos, offset, len, o, l, p, 0, done) && n <= l && |step| == n
      requires Underway(disc.list, offset, len, o + n, l - n, 0, done + step)
      requires p + Product(n, disc.unit) <= |was| == |now| && now == Blit(was, p, Delivered(disc, step))
      ensures Filling(start, now, pos, offset, len, o + n, l - n, p + Product(n, disc.unit), 0, done + step)
    {
      ProductSum(n, l - n, disc.unit);
      DeliveredMore(start, was, now, pos, done, step);
    }

    /** One search and what it found. */
    method ReadRound(o: nat, l: nat, data: array<byte>, p: nat) returns (r: int, n: nat, ghost step: seq<Place>)
      requires Valid() && l > 0 && p + Product(l, disc.unit) <= data.Length
      modifies data
      ensures Answer(o, l, r, n, step) && p + Product(n, disc.unit) <= data.Length
      ensures r == 0 ==> data[..] == Blit(old(data[..]), p, Delivered(disc, step))
    {
      r, n, step := 0, 0, [];
      var h := Get(o, l);
      if h.OutOfRange? {
        r := -2;
      } else {
        ProductMono(h.offset + h.count - o, l, disc.unit);
        var ok := Take(h, o, data, p);
        if !ok {
          r := -3;
        } else {
          n, step := h.offset + h.count - o, Step(h, o);
          if n == 0 {
            assert false;  // -4
          }
        }
      }
    }

    lemma {:induction false} DeliveredMore(start: seq<byte>, was: seq<byte>, now: seq<byte>, pos: nat,
                                           done: seq<Place>, step: seq<Place>)
      requires disc.unit > 0 && pos + Product(|done|, disc.unit) + Product(|step|, disc.unit) <= |start|
      requires was == Blit(start, pos, Delivered(disc, done))
      requires now == Blit(was, pos + Product(|done|, disc.unit), Delivered(disc, step))
      ensures Product(|done + step|, disc.unit) == Product(|done|, disc.unit) + Product(|step|, disc.unit)
      ensures now == Blit(start, pos, Delivered(disc, done + step))
    {
      ProductSum(|done|, |step|, disc.unit);
      BlitSplit(start, pos, Delivered(disc, done), Delivered(disc, step));
      DeliveredJoin(disc, done, step);
    }

    /** Words per sector. */
    function Words(): (w: nat)
      ensures w > 0
    {
      if bits < 2 then 1 else Power(bits - 2)
    }

    lemma {:induction false} UnitIsWords()
      requires bits >= 2 && disc.unit == Power(bits)
      ensures disc.unit == 4 * Words()
    {
      assert Power(bits) == 2 * Power(bits - 1) && Power(bits - 1) == 2 * Power(bits - 2);
    }

    /** __Frag_ReadPartial: from a word address to the end of its sector at most. */
    method ReadPartial(w: nat, data: array<byte>, pos: nat, len: nat, ghost b: nat) returns (r: int, n: nat)
      requires Valid() && data != buffer && pos + len <= data.Length && b == 4 * w
      modifies data, buffer
      ensures 4 * Rem(w, Words()) == Rem(b, disc.unit) && n == Head(disc.unit, b, len)
      ensures Did(Piece(disc, b, n), r, data[..], old(data[..]), pos)
    {
      UnitIsWords();
      var s := Quot(w, Words());
      var mod := 4 * Rem(w, Words());
      WordByte(w, Words());
      InSector(disc.unit, s, mod);
      n := PartLength(disc.unit, mod, len);
      r := 0;
      if n > 0 {
        r := ReadOne(s);
        OneSector(s, mod, n);
        if r == 0 {
          MemCpy(data, pos, buffer[mod..mod + n]);
        }
      }
    }

    /** A piece inside one sector. */
    lemma {:induction false} OneSector(s: nat, mod: nat, n: nat)
      requires disc.unit > 0 && 0 < n && mod + n <= disc.unit
      ensures Product(1, disc.unit) == disc.unit
      ensures Piece(disc, Product(s, disc.unit) + mod, n) == Cutout(disc, Follow(disc.list, s, 1), mod, n)
    {
      ProductIs(1, disc.unit);
      InSector(disc.unit, s, mod);
      InSector(disc.unit, s, mod + n - 1);
    }

    /** One sector into the sector buffer. */
    method ReadOne(s: nat) returns (r: int)
      requires Valid()
      modifies buffer
      ensures var t := Follow(disc.list, s, 1);
              r == t.code && (r == 0 ==> buffer[..] == Delivered(disc, t.places))
    {
      ProductIs(1, disc.unit);
      r := ReadSect(s, buffer, 0, 1);
      if r == 0 {
        BlitHead(old(buffer[..]), Delivered(disc, Follow(disc.list, s, 1).places));
        assert buffer[..][..disc.unit] == buffer[..];
      }
    }

    /** Frag_Read: `len` bytes of the disc from word `woffset` on. */
    method Read(data: array<byte>, pos: nat, len: nat, woffset: nat) returns (r: int)
      requires Valid() && data != buffer && pos + len <= data.Length && 4 * woffset + len <= 4 * U32
      modifies data, buffer
      ensures Did(ReadGot(disc, 4 * woffset, len), r, data[..], old(data[..]), pos)
    {
      var n;
      ghost var b := 4 * woffset;
      r, n := ReadPartial(woffset, data, pos, len, b);
      var rest, at, first := len - n, pos + n, r;
      ghost var start, was := old(data[..]), data[..];
      if first == 0 {
        r := ReadOn(woffset, n, data, at, rest, len, b + n);
      }
      ghost var now := data[..];
      DidRead(disc, b, len, n, rest, at, first, r, was, now, start, pos);
    }

    /** The read goes on behind its leading part, if it has to. */
    method ReadOn(w: nat, n: nat, data: array<byte>, at: nat, rest: nat, ghost len: nat, ghost b: nat)
      returns (r: int)
      requires Valid() && data != buffer && at + rest <= data.Length && b == 4 * w + n && n + rest == len
      requires 4 * Rem(w, Words()) < disc.unit && n == PartLength(disc.unit, 4 * Rem(w, Words()), len)
      modifies data, buffer
      ensures Did(PiecesGot(disc, b, Rest(disc.unit, rest)), r, data[..], old(data[..]), at)
    {
      if rest > 0 {
        r := ReadBehind(w, n, data, at, rest, len, b);
      } else {
        r := 0;
        DidNothing(disc, b, rest, data[..], at);
      }
    }

    /** What follows the leading part, which ends at byte b. */
    method ReadBehind(w: nat, n: nat, data: array<byte>, at: nat, rest: nat, ghost len: nat, ghost b: nat)
      returns (r: int)
      requires Valid() && data != buffer && at + rest <= data.Length && b == 4 * w + n && n + rest == len
      requires 4 * Rem(w, Words()) < disc.unit && n == PartLength(disc.unit, 4 * Rem(w, Words()), len) < len
      modifies data, buffer
      ensures Did(PiecesGot(disc, b, Rest(disc.unit, rest)), r, data[..], old(data[..]), at)
    {
      UnitIsWords();
      HeadAligned(w, Words(), len);
      r := ReadAligned(w + n / 4, data, at, rest, b);
    }

    /** Whole sectors, then what is left of the last one. */
    method ReadAligned(w: nat, data: array<byte>, at: nat, len: nat, ghost b: nat) returns (r: int)
      requires Valid() && data != buffer && at + len <= data.Length && Rem(w, Words()) == 0 && b == 4 * w
      modifies data, buffer
      ensures Did(PiecesGot(disc, b, Rest(disc.unit, len)), r, data[..], old(data[..]), at)
    {
      var m;
      r, m := ReadWhole(w, data, at, len, b);
      var k, tail := len - m, at + m;
      ghost var was := data[..];
      if r == 0 {
        r := ReadLast(w, m, data, tail, k, len, b + m);
        DidRest(disc, b, len, m, k, tail, 0, r, was, data[..], old(data[..]), at);
      } else {
        DidRest(disc, b, len, m, k, tail, r, r, was, was, old(data[..]), at);
      }
    }

    /** What is left behind the m bytes of whole sectors, if anything is. */
    method ReadLast(w: nat, m: nat, data: array<byte>, tail: nat, k: nat, ghost len: nat, ghost b: nat)
      returns (r: int)
      requires Valid() && data != buffer && tail + k <= data.Length && m + k == len < m + disc.unit
      requires m % 4 == 0 && Rem(w + m / 4, Words()) == 0 && b == 4 * w + m
      modifies data, buffer
      ensures Did(Piece(disc, b, k), r, data[..], old(data[..]), tail)
    {
      if k > 0 {
        r := ReadTail(w, m, data, tail, k, b);
      } else {
        r := 0;
        DidNone(disc, b, k, data[..], tail);
      }
    }

    method ReadWhole(w: nat, data: array<byte>, at: nat, len: nat, ghost b: nat) returns (r: int, m: nat)
      requires Valid() && at + len <= data.Length && Rem(w, Words()) == 0 && b == 4 * w
      modifies data
      ensures m == Whole(disc.unit, len) && len < m + disc.unit && m % 4 == 0 && Rem(w + m / 4, Words()) == 0
      ensures Did(Piece(disc, b, m), r, data[..], old(data[..]), at)
    {
      r, m := 0, 0;
      if len >= disc.unit {
        UnitIsWords();
        var s, count := Quot(w, Words()), Quot(len, disc.unit);
        Middle(disc.unit, w, Words(), len);
        m := Product(count, disc.unit);
        r := ReadSect(s, data, at, count);
        WholePiece(b, s, count, m);
      } else {
        QuotUnique(len, disc.unit, 0, len);
      }
    }

    /** A piece of whole sectors. */
    lemma {:induction false} WholePiece(b: nat, s: nat, count: nat, m: nat)
      requires disc.unit > 0 && m > 0 && m == Product(count, disc.unit) && b == Product(s, disc.unit)
      requires Quot(b, disc.unit) == s && Quot(b + m - 1, disc.unit) == s + count - 1
      ensures var t := Follow(disc.list, s, count);
              Piece(disc, b, m) == Got(t.code, if t.code == 0 then Delivered(disc, t.places) else [])
    {
      InSector(disc.unit, s, 0);
    }

    /** The part of the last sector, m bytes behind word w. */
    method ReadTail(w: nat, m: nat, data: array<byte>, tail: nat, k: nat, ghost b: nat) returns (r: int)
      requires Valid() && data != buffer && tail + k <= data.Length && 0 < k < disc.unit
      requires m % 4 == 0 && Rem(w + m / 4, Words()) == 0 && b == 4 * w + m
      modifies data, buffer
      ensures Did(Piece(disc, b, k), r, data[..], old(data[..]), tail)
    {
      var next, rlen := w + m / 4, 0;
      r, rlen := ReadPartial(next, data, tail, k, b);
      if rlen != k {
        assert false;  // -5
      }
    }
  }

  predicate Skippable(f: seq<Fragment>, at: nat, off: nat) {
    (at < |f| || at == 0) && forall j :: 0 <= j < at ==> End(f[j]) <= off
  }
}
