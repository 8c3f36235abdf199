/**
 * memset and memcpy over memory whose first 24 MB take only aligned word
 * stores: a byte there is changed by reading, patching and writing its word.
 */
module WordMemory {
  import opened Bytes

  const MEM1_SIZE := 0x0180_0000

  datatype Store = WordStore(addr: nat) | ByteStore(addr: nat)

  /** Words are aligned; single bytes are stored behind MEM1 only. */
  predicate Proper(s: Store) {
    match s
    case WordStore(a) => a % 4 == 0
    case ByteStore(a) => a >= MEM1_SIZE
  }

  /** The store that changes one byte. */
  function OneStore(a: nat, inMem1: bool): (s: Store) { if inMem1 then WordStore(a / 4 * 4) else ByteStore(a) }

  /** The stores that change n single bytes: of whole words when the range starts in MEM1. */
  function ByteStores(dest: nat, n: nat, inMem1: bool): (r: seq<Store>)
    ensures |r| == n
  {
    if n == 0 then []
    else ByteStores(dest, n - 1, inMem1) + [OneStore(dest + n - 1, inMem1)]
  }

  /** The stores of n whole words. */
  function WordStores(dest: nat, n: nat): (r: seq<Store>)
    ensures |r| == n
    decreases n
  {
    if n == 0 then [] else [WordStore(dest)] + WordStores(dest + 4, n - 1)
  }

  /** Bytes before the first word boundary. */
  function Head(dest: nat): (n: nat)
    ensures n < 4 && (dest + n) % 4 == 0
  {
    if dest % 4 == 0 then 0 else 4 - dest % 4
  }

  /** From a word boundary on: words, then the bytes that are left. */
  function AlignedStores(dest: nat, size: nat): (r: seq<Store>)
    decreases size
  {
    if size < 4 then ByteStores(dest, size, dest < MEM1_SIZE) else [WordStore(dest)] + AlignedStores(dest + 4, size - 4)
  }

  /** The stores of memset, in order. */
  function MemsetStores(dest: nat, size: nat): (r: seq<Store>) {
    if size <= Head(dest) then ByteStores(dest, size, dest < MEM1_SIZE)
    else ByteStores(dest, Head(dest), dest < MEM1_SIZE) + AlignedStores(dest + Head(dest), size - Head(dest))
  }

  /** The stores of memcpy, in order. */
  function MemcpyStores(dest: nat, src: nat, size: nat): (r: seq<Store>) {
    if dest % 4 == 0 && src % 4 == 0 then AlignedStores(dest, size) else ByteStores(dest, size, dest < MEM1_SIZE)
  }

  function AddressOf(s: Store): (a: nat) { match s case WordStore(a) => a case ByteStore(a) => a }

  /** One store behind the other, from address lo on and below hi. */
  predicate Rises(log: seq<Store>, lo: nat, hi: nat) {
    && (forall i :: 0 <= i < |log| ==> lo <= AddressOf(log[i]) < hi)
    && (forall i, j :: 0 <= i < j < |log| ==> AddressOf(log[i]) <= AddressOf(log[j]))
  }

  lemma {:induction false} RiseJoin(a: seq<Store>, b: seq<Store>, lo: nat, mid: nat, hi: nat)
    requires Rises(a, lo, mid) && Rises(b, mid, hi) && lo <= mid <= hi
    ensures Rises(a + b, lo, hi)
  {
  }

  lemma {:induction false} ByteStoreAt(dest: nat, n: nat, inMem1: bool, i: nat)
    requires i < n
    ensures ByteStores(dest, n, inMem1)[i] == OneStore(dest + i, inMem1)
  {
    if i < n - 1 {
      ByteStoreAt(dest, n - 1, inMem1, i);
    }
  }

  lemma {:induction false} OneRises(a: nat, b: nat, inMem1: bool)
    requires a <= b
    ensures a / 4 * 4 <= AddressOf(OneStore(a, inMem1)) <= AddressOf(OneStore(b, inMem1)) <= b
  {
  }

  lemma {:induction false} BytesRise(dest: nat, n: nat, inMem1: bool)
    ensures Rises(ByteStores(dest, n, inMem1), dest / 4 * 4, dest + n)
  {
    var log := ByteStores(dest, n, inMem1);
    forall i | 0 <= i < n
      ensures dest / 4 * 4 <= AddressOf(log[i]) < dest + n
    {
      ByteStoreAt(dest, n, inMem1, i);
      OneRises(dest, dest + i, inMem1);
    }
    forall i, j | 0 <= i < j < n
      ensures AddressOf(log[i]) <= AddressOf(log[j])
    {
      ByteStoreAt(dest, n, inMem1, i);
      ByteStoreAt(dest, n, inMem1, j);
      OneRises(dest + i, dest + j, inMem1);
    }
  }

  lemma {:induction false} AlignedRise(dest: nat, size: nat)
    requires dest % 4 == 0
    ensures Rises(AlignedStores(dest, size), dest, dest + size)
    decreases size
  {
    if size < 4 {
      BytesRise(dest, size, dest < MEM1_SIZE);
    } else {
      AlignedRise(dest + 4, size - 4);
      RiseJoin([WordStore(dest)], AlignedStores(dest + 4, size - 4), dest, dest + 4, dest + size);
    }
  }

  lemma {:induction false} HeadThenWords(dest: nat, lo: nat, head: nat, size: nat)
    requires lo == dest / 4 * 4 && head < size && (dest + head) % 4 == 0
    ensures Rises(ByteStores(dest, head, dest < MEM1_SIZE) + AlignedStores(dest + head, size - head), lo, dest + size)
  {
    var a, b := ByteStores(dest, head, dest < MEM1_SIZE), AlignedStores(dest + head, size - head);
    BytesRise(dest, head, dest < MEM1_SIZE);
    AlignedRise(dest + head, size - head);
    RiseJoin(a, b, lo, dest + head, dest + size);
  }

  /** The stores of memset go up through memory and stay inside the words of the range. */
  lemma {:induction false} MemsetRises(dest: nat, size: nat)
    ensures Rises(MemsetStores(dest, size), dest / 4 * 4, dest + size)
  {
    if size <= Head(dest) {
      BytesRise(dest, size, dest < MEM1_SIZE);
    } else {
      HeadThenWords(dest, dest / 4 * 4, Head(dest), size);
    }
  }

  /** So do those of memcpy. */
  lemma {:induction false} MemcpyRises(dest: nat, src: nat, size: nat)
    ensures Rises(MemcpyStores(dest, src, size), dest / 4 * 4, dest + size)
  {
    if dest % 4 == 0 && src % 4 == 0 {
      AlignedRise(dest, size);
    } else {
      BytesRise(dest, size, dest < MEM1_SIZE);
    }
  }

  predicate WordsOnly(log: seq<Store>) { forall i :: 0 <= i < |log| ==> log[i].WordStore? }

  lemma {:induction false} WordsOnlyConcat(a: seq<Store>, b: seq<Store>)
    ensures WordsOnly(a + b) <==> WordsOnly(a) && WordsOnly(b)
  {
    if WordsOnly(a + b) {
      forall i | 0 <= i < |a|
        ensures a[i].WordStore?
      {
        assert (a + b)[i] == a[i];
      }
      forall i | 0 <= i < |b|
        ensures b[i].WordStore?
      {
        assert (a + b)[|a| + i] == b[i];
      }
    }
  }

  lemma {:induction false} ByteStoresExactly(dest: nat, n: nat, inMem1: bool)
    ensures WordsOnly(ByteStores(dest, n, inMem1)) <==> n == 0 || inMem1
  {
    if n > 0 {
      ByteStoresExactly(dest, n - 1, inMem1);
      assert ByteStores(dest, n, inMem1)[n - 1].WordStore? <==> inMem1;
    }
  }

  /** What is left of a size behind its words: the remainder by 4. */
  function Tail(size: nat): (n: nat)
    ensures n <= size && n == size % 4
  {
    if size < 4 then size else Tail(size - 4)
  }

  lemma {:induction false} AlignedExactly(dest: nat, size: nat)
    ensures WordsOnly(AlignedStores(dest, size)) <==> Tail(size) == 0 || dest + size - Tail(size) < MEM1_SIZE
    decreases size
  {
    if size < 4 {
      ByteStoresExactly(dest, size, dest < MEM1_SIZE);
    } else {
      AlignedExactly(dest + 4, size - 4);
      WordsOnlyConcat([WordStore(dest)], AlignedStores(dest + 4, size - 4));
    }
  }

  /** The single bytes memset stores before the first word, and behind the last one. */
  function HeadBytes(dest: nat, size: nat): (n: nat)
    ensures n <= size
  {
    if size <= Head(dest) then size else Head(dest)
  }

  function TailBytes(dest: nat, size: nat): (n: nat)
    ensures n <= size - HeadBytes(dest, size)
  {
    Tail(size - HeadBytes(dest, size))
  }

  /** memset stores whole words only, exactly when its single bytes at either end, if any, start in MEM1. */
  lemma {:induction false} MemsetWordsExactly(dest: nat, size: nat)
    ensures WordsOnly(MemsetStores(dest, size)) <==>
              && (HeadBytes(dest, size) == 0 || dest < MEM1_SIZE)
              && (TailBytes(dest, size) == 0 || dest + size - TailBytes(dest, size) < MEM1_SIZE)
  {
    if size <= Head(dest) {
      ByteStoresExactly(dest, size, dest < MEM1_SIZE);
    } else {
      HeadAndRest(dest, Head(dest), size - Head(dest));
    }
  }

  lemma {:induction false} HeadAndRest(dest: nat, head: nat, rest: nat)
    ensures WordsOnly(ByteStores(dest, head, dest < MEM1_SIZE) + AlignedStores(dest + head, rest)) <==>
              (head == 0 || dest < MEM1_SIZE) && (Tail(rest) == 0 || dest + head + rest - Tail(rest) < MEM1_SIZE)
  {
    ByteStoresExactly(dest, head, dest < MEM1_SIZE);
    AlignedExactly(dest + head, rest);
    WordsOnlyConcat(ByteStores(dest, head, dest < MEM1_SIZE), AlignedStores(dest + head, rest));
  }

  /** The bytes memcpy stores singly: the last ones, or all of an unaligned copy. */
  function SingleBytes(dest: nat, src: nat, size: nat): (n: nat)
    ensures n <= size
  {
    if dest % 4 == 0 && src % 4 == 0 then Tail(size) else size
  }

  /** memcpy does, exactly when the bytes it stores singly, if any, start in MEM1. */
  lemma {:induction false} MemcpyWordsExactly(dest: nat, src: nat, size: nat)
    ensures WordsOnly(MemcpyStores(dest, src, size)) <==>
              SingleBytes(dest, src, size) == 0 || dest + size - SingleBytes(dest, src, size) < MEM1_SIZE
  {
    AlignedExactly(dest, size);
    ByteStoresExactly(dest, size, dest < MEM1_SIZE);
  }

  /** So a range inside MEM1 is stored by words only. */
  lemma {:induction false} InsideMem1(dest: nat, src: nat, size: nat)
    requires dest + size <= MEM1_SIZE
    ensures WordsOnly(MemsetStores(dest, size)) && WordsOnly(MemcpyStores(dest, src, size))
  {
    MemsetWordsExactly(dest, size);
    MemcpyWordsExactly(dest, src, size);
  }

  /** Five bytes across the end of MEM1: a word, and a byte store behind it, although the range starts in MEM1. */
  lemma {:induction false} CrossingStores()
    ensures !WordsOnly(MemsetStores(MEM1_SIZE - 4, 5)) && !WordsOnly(MemcpyStores(MEM1_SIZE - 4, 0, 5))
    ensures MemsetStores(MEM1_SIZE - 4, 5) == [WordStore(MEM1_SIZE - 4), ByteStore(MEM1_SIZE)]
  {
    MemsetWordsExactly(MEM1_SIZE - 4, 5);
    MemcpyWordsExactly(MEM1_SIZE - 4, 0, 5);
    var d := MEM1_SIZE - 4;
    assert ByteStores(d + 4, 0, false) == [] && ByteStores(d + 4, 1, false) == ByteStores(d + 4, 0,
      false) + [ByteStore(d + 4)];
    assert AlignedStores(d, 5) == [WordStore(d)] + AlignedStores(d + 4, 1);
    assert ByteStores(d, 0, true) == [];
  }

  lemma {:induction false} StillAligned(dest: nat, done: nat, n: nat)
    requires dest % 4 == 0 && done % 4 == 0
    ensures (dest + done) % 4 == 0 && (done + 4 * n) % 4 == 0
  {
  }

  /** The stores of a copy that has come as far as `done` bytes, with those still to come. */
  ghost function AllStores(log: seq<Store>, dest: nat, size: nat, done: nat): (r: seq<Store>)
    requires done <= size
  {
    log + AlignedStores(dest + done, size - done)
  }

  lemma {:induction false} SplitLog(log: seq<Store>, dest: nat, size: nat, done: nat, n: nat)
    requires done + 4 * n <= size
    ensures AllStores(log + WordStores(dest + done, n), dest, size, done + 4 * n) == AllStores(log, dest, size, done)
  {
    AlignedSplit(dest + done, size - done, n);
    Regroup(log, WordStores(dest + done, n), AlignedStores(dest + done + 4 * n, size - done - 4 * n));
  }

  lemma {:induction false} Steps(a: nat)
    requires a % 4 == 0
    ensures (a + 4) % 4 == 0
  {
  }

  lemma {:induction false} LastBytes(dest: nat, size: nat)
    requires size < 4
    ensures AlignedStores(dest, size) == ByteStores(dest, size, dest < MEM1_SIZE)
  {
  }

  lemma {:induction false} NextWord(log: seq<Store>, dest: nat, size: nat)
    requires size >= 4
    ensures log + [WordStore(dest)] + AlignedStores(dest + 4, size - 4) == log + AlignedStores(dest, size)
  {
    Regroup(log, [WordStore(dest)], AlignedStores(dest + 4, size - 4));
  }

  lemma {:induction false} Regroup(a: seq<Store>, b: seq<Store>, c: seq<Store>)
    ensures a + b + c == a + (b + c)
  {
  }

  lemma {:induction false} OneMoreStore(log: seq<Store>, dest: nat, n: nat, inMem1: bool)
    ensures log + ByteStores(dest, n, inMem1) + [OneStore(dest + n, inMem1)] == log + ByteStores(dest, n + 1, inMem1)
  {
    Regroup(log, ByteStores(dest, n, inMem1), [OneStore(dest + n, inMem1)]);
  }

  /** Whole words first. */
  lemma {:induction false} AlignedSplit(dest: nat, size: nat, n: nat)
    requires 4 * n <= size
    ensures AlignedStores(dest, size) == WordStores(dest, n) + AlignedStores(dest + 4 * n, size - 4 * n)
    decreases n
  {
    if n > 0 {
      AlignedSplit(dest + 4, size - 4, n - 1);
    }
  }

  predicate AllProper(log: seq<Store>) { forall i :: 0 <= i < |log| ==> Proper(log[i]) }

  /** Big-endian digits. */
  function Four(a: byte, b: byte, c: byte, d: byte): (w: u32) {
    a * 0x100_0000 + b * 0x1_0000 + c * 0x100 + d
  }

  function Digit(w: u32, k: nat): (r: byte)
    requires k < 4
  {
    if k == 0 then w / 0x100_0000 else if k == 1 then w / 0x1_0000 % 0x100 else if k == 2
      then w / 0x100 % 0x100 else w % 0x100
  }

  function Place(k: nat): (r: nat)
    requires k < 4
  {
    if k == 0 then 0x100_0000 else if k == 1 then 0x1_0000 else if k == 2 then 0x100 else 1
  }

  /** (w & ~(0xFF << offset)) | (c << offset), where byte k of the word is at that offset. */
  function Patched(w: u32, k: nat, c: byte): (r: nat)
    requires k < 4
  {
    w - Digit(w, k) * Place(k) + c * Place(k)
  }

  function Fill(c: byte, n: nat): (r: seq<byte>)
    ensures |r| == n
  {
    if n == 0 then [] else [c] + Fill(c, n - 1)
  }

  /** The bytes of a word, as they lie in memory. */
  function DigitsOf(w: u32): (r: seq<byte>)
    ensures |r| == 4
  {
    [Digit(w, 0), Digit(w, 1), Digit(w, 2), Digit(w, 3)]
  }

  lemma {:induction false} FourDigits(a: byte, b: byte, c: byte, d: byte)
    ensures Digit(Four(a, b, c, d), 0) == a && Digit(Four(a, b, c, d), 1) == b
    ensures Digit(Four(a, b, c, d), 2) == c && Digit(Four(a, b, c, d), 3) == d
  {
    var w := Four(a, b, c, d);
    assert w / 0x100 == a * 0x1_0000 + b * 0x100 + c;
    assert w / 0x1_0000 == a * 0x100 + b;
  }

  /** Patching a byte of a word leaves the other three. */
  lemma {:induction false} PatchedIs(a: byte, b: byte, c: byte, d: byte, k: nat, x: byte)
    requires k < 4
    ensures Patched(Four(a, b, c, d), k, x)
         == Four(if k == 0 then x else a, if k == 1 then x else b, if k == 2 then x else c, if k == 3 then x else d)
  {
    FourDigits(a, b, c, d);
  }

  lemma {:induction false} PatchedDigits(a: byte, b: byte, c: byte, d: byte, k: nat, x: byte)
    requires k < 4
    ensures Patched(Four(a, b, c, d), k, x) < U32
    ensures DigitsOf(Patched(Four(a, b, c, d), k, x)) == [a, b, c, d][k := x]
  {
    PatchedIs(a, b, c, d, k, x);
    FourDigits(if k == 0 then x else a, if k == 1 then x else b, if k == 2 then x else c, if k == 3 then x else d);
  }

  lemma {:induction false} AlignedDown(a: nat, size: nat)
    requires a < size && size % 4 == 0
    ensures a / 4 * 4 % 4 == 0 && a / 4 * 4 + 4 <= size && a / 4 * 4 + a % 4 == a && a % 4 < 4
  {
  }

  /** Writing back the patched word changes one byte of memory. */
  lemma {:induction false} WordPatched(s: seq<byte>, base: nat, k: nat, x: byte)
    requires base + 4 <= |s| && k < 4
    ensures var w := Patched(Four(s[base], s[base + 1], s[base + 2], s[base + 3]), k, x);
            w < U32 && Blit(s, base, DigitsOf(w)) == s[base + k := x]
  {
    var b := [s[base], s[base + 1], s[base + 2], s[base + 3]];
    PatchedDigits(b[0], b[1], b[2], b[3], k, x);
    BlitIs(s, base, b[k := x], s[base + k := x]);
  }

  lemma {:induction false} FillSplit(c: byte, m: nat, n: nat)
    ensures Fill(c, m) + Fill(c, n) == Fill(c, m + n)
  {
    if m == 0 {
      assert Fill(c, 0) + Fill(c, n) == Fill(c, n);
    } else {
      FillSplit(c, m - 1, n);
      assert Fill(c, m) + Fill(c, n) == [c] + (Fill(c, m - 1) + Fill(c, n));
    }
  }

  lemma {:induction false} FillFour(c: byte)
    ensures Fill(c, 4) == [c, c, c, c]
  {
    assert Fill(c, 1) == [c];
    FillSplit(c, 1, 1);
    FillSplit(c, 2, 2);
  }

  lemma {:induction false} WordOfFill(c: byte)
    ensures DigitsOf(Four(c, c, c, c)) == Fill(c, 4)
  {
    FourDigits(c, c, c, c);
    FillFour(c);
  }

  /** A word of four equal bytes. */
  function Spread(c: byte): (w: u32)
    ensures DigitsOf(w) == Fill(c, 4)
  {
    WordOfFill(c);
    Four(c, c, c, c)
  }

  /** One more piece of a fill. */
  lemma {:induction false} FillGrows(s: seq<byte>, at: nat, c: byte, m: nat, n: nat)
    requires at + m + n <= |s|
    ensures Blit(Blit(s, at, Fill(c, m)), at + m, Fill(c, n)) == Blit(s, at, Fill(c, m + n))
  {
    BlitSplit(s, at, Fill(c, m), Fill(c, n));
    FillSplit(c, m, n);
  }

  lemma {:induction false} BlitOne(s: seq<byte>, at: nat, c: byte)
    requires at < |s|
    ensures Blit(s, at, [c]) == s[at := c]
  {
    BlitIs(s, at, [c], s[at := c]);
  }

  class Ram {
    const mem: array<byte>
    ghost var log: seq<Store>

    ghost predicate Valid()
      reads this
    {
      mem.Length % 4 == 0 && AllProper(log)
    }

    constructor (size: nat)
      requires size % 4 == 0
      ensures Valid() && log == [] && mem.Length == size && fresh(mem)
    {
      mem := new byte[size](_ => 0);
      log := [];
    }

    function LoadWord(a: nat): (w: u32)
      requires a + 4 <= mem.Length
      reads mem
    {
      Four(mem[a], mem[a + 1], mem[a + 2], mem[a + 3])
    }

    method StoreWord(a: nat, w: u32)
      requires Valid() && a % 4 == 0 && a + 4 <= mem.Length
      modifies mem, this`log
      ensures Valid() && mem[..] == Blit(old(mem[..]), a, DigitsOf(w))
      ensures log == old(log) + [WordStore(a)]
    {
      mem[a], mem[a + 1], mem[a + 2], mem[a + 3] := Digit(w, 0), Digit(w, 1), Digit(w, 2), Digit(w, 3);
      log := log + [WordStore(a)];
      BlitIs(old(mem[..]), a, DigitsOf(w), mem[..]);
    }

    method StoreByte(a: nat, c: byte)
      requires Valid() && a < mem.Length && a >= MEM1_SIZE
      modifies mem, this`log
      ensures Valid() && mem[..] == old(mem[..])[a := c] && log == old(log) + [ByteStore(a)]
    {
      mem[a] := c;
      log := log + [ByteStore(a)];
    }

    /** Read, patch and write the word around a byte: its neighbours keep their values. */
    method PatchByte(a: nat, c: byte)
      requires Valid() && a < mem.Length
      modifies mem, this`log
      ensures Valid() && mem[..] == old(mem[..])[a := c] && log == old(log) + [WordStore(a / 4 * 4)]
    {
      AlignedDown(a, mem.Length);
      PatchIn(a / 4 * 4, a % 4, c);
    }

    method PatchIn(base: nat, k: nat, c: byte)
      requires Valid() && base % 4 == 0 && base + 4 <= mem.Length && k < 4
      modifies mem, this`log
      ensures Valid() && mem[..] == old(mem[..])[base + k := c] && log == old(log) + [WordStore(base)]
    {
      WordPatched(mem[..], base, k, c);
      StoreWord(base, Patched(LoadWord(base), k, c));
    }

    /** One byte, by the rule of its memory. */
    method PutByte(a: nat, c: byte, inMem1: bool)
      requires Valid() && a < mem.Length && (!inMem1 ==> a >= MEM1_SIZE)
      modifies mem, this`log
      ensures Valid() && mem[..] == old(mem[..])[a := c]
      ensures log == old(log) + [OneStore(a, inMem1)]
    {
      if inMem1 {
        PatchByte(a, c);
      } else {
        StoreByte(a, c);
      }
    }

    /** memset_inner. */
    method MemsetInner(dest: nat, c: byte, size: nat)
      requires Valid() && dest + size <= mem.Length
      modifies mem, this`log
      ensures Valid() && mem[..] == Blit(old(mem[..]), dest, Fill(c, size))
      ensures log == old(log) + ByteStores(dest, size, dest < MEM1_SIZE)
    {
      var inMem1 := dest < MEM1_SIZE;
      var i := 0;
      while i < size
        invariant i <= size && Valid() && mem[..] == Blit(old(mem[..]), dest, Fill(c, i))
        invariant log == old(log) + ByteStores(dest, i, inMem1)
      {
        PutByte(dest + i, c, inMem1);
        BlitOne(Blit(old(mem[..]), dest, Fill(c, i)), dest + i, c);
        assert Fill(c, 1) == [c];
        FillGrows(old(mem[..]), dest, c, i, 1);
        i := i + 1;
      }
    }

    /** The fill as far as `done` bytes, in whole words; the stores still to come complete those of the whole range. */
    ghost predicate Filling(was: seq<byte>, before: seq<Store>, dest: nat, c: byte, size: nat, done: nat)
      reads this, mem
    {
      && Valid() && mem.Length == |was| && dest + size <= |was| && done <= size && (dest + done) % 4 == 0
      && mem[..] == Blit(was, dest, Fill(c, done))
      && log + AlignedStores(dest + done, size - done) == before + AlignedStores(dest, size)
    }

    /** Whole words of one byte value. */
    method FillWords(dest: nat, c: byte, w: u32, size: nat) returns (done: nat)
      requires DigitsOf(w) == Fill(c, 4) && Valid() && dest % 4 == 0 && dest + size <= mem.Length
      modifies mem, this`log
      ensures Filling(old(mem[..]), old(log), dest, c, size, done) && size < done + 4
    {
      done := 0;
      while done + 4 <= size
        invariant Filling(old(mem[..]), old(log), dest, c, size, done)
      {
        FillWord(dest, c, w, size, done, old(mem[..]), old(log));
        done := done + 4;
      }
    }

    method FillWord(dest: nat, c: byte, w: u32, size: nat, done: nat, ghost was: seq<byte>, ghost before: seq<Store>)
      requires DigitsOf(w) == Fill(c, 4) && Filling(was, before, dest, c, size, done) && done + 4 <= size
      modifies mem, this`log
      ensures Filling(was, before, dest, c, size, done + 4)
    {
      ghost var sofar := log;
      StoreWord(dest + done, w);
      FillGrows(was, dest, c, done, 4);
      NextWord(sofar, dest + done, size - done);
      Steps(dest + done);
    }

    /** memset: every alignment, every size. */
    method Memset(dest: nat, c: int, size: nat) returns (r: nat)
      requires Valid() && dest + size <= mem.Length
      modifies mem, this`log
      ensures Valid() && log == old(log) + MemsetStores(dest, size) && r == dest
      ensures mem[..] == Blit(old(mem[..]), dest, Fill(c % 0x100, size))
    {
      r := dest;
      var data: byte := c % 0x100;
      var head := if dest % 4 == 0 then 0 else 4 - dest % 4;
      if size == 0 {
        assert log == log + ByteStores(dest, 0, dest < MEM1_SIZE);
      } else if size <= head {
        MemsetInner(dest, data, size);
      } else {
        MemsetInner(dest, data, head);
        MemsetAligned(dest + head, data, size - head);
        FillGrows(old(mem[..]), dest, data, head, size - head);
        Regroup(old(log), ByteStores(dest, head, dest < MEM1_SIZE), AlignedStores(dest + head, size - head));
      }
    }

    /** From a word boundary on: words, then the bytes that are left. */
    method MemsetAligned(dest: nat, c: byte, size: nat)
      requires Valid() && dest % 4 == 0 && dest + size <= mem.Length
      modifies mem, this`log
      ensures Valid() && log == old(log) + AlignedStores(dest, size)
      ensures mem[..] == Blit(old(mem[..]), dest, Fill(c, size))
    {
      ghost var was := mem[..];
      var words := FillWords(dest, c, Spread(c), size);
      LastBytes(dest + words, size - words);
      MemsetInner(dest + words, c, size - words);
      FillGrows(was, dest, c, words, size - words);
    }

    /** n words, all read before the first is written. */
    method CopyWords(dest: nat, src: nat, n: nat)
      requires Valid() && dest % 4 == 0 && dest + 4 * n <= mem.Length && src + 4 * n <= mem.Length
      modifies mem, this`log
      ensures Valid() && log == old(log) + WordStores(dest, n)
      ensures mem[..] == Blit(old(mem[..]), dest, old(mem[..])[src..src + 4 * n])
    {
      var read := LoadWords(src, n);
      StoreWords(dest, read, n, mem[..], src);
    }

    method LoadWords(src: nat, n: nat) returns (read: seq<u32>)
      requires src + 4 * n <= mem.Length
      ensures read == WordsIn(mem[..], src, n)
    {
      read := [];
      var i := 0;
      while i < n
        invariant i <= n && read == WordsIn(mem[..], src, i)
      {
        read := read + [LoadWord(src + 4 * i)];
        i := i + 1;
      }
    }

    method StoreWords(dest: nat, read: seq<u32>, n: nat, ghost was: seq<byte>, ghost src: nat)
      requires Valid() && dest % 4 == 0 && dest + 4 * n <= mem.Length == |was| && src + 4 * n <= |was| && mem[..] == was
      requires read == WordsIn(was, src, n)
      modifies mem, this`log
      ensures Valid() && log == old(log) + WordStores(dest, n) && mem[..] == Blit(was, dest, was[src..src + 4 * n])
    {
      var i := 0;
      while i < n
        invariant i <= n && Valid() && log + WordStores(dest + 4 * i, n - i) == old(log) + WordStores(dest, n)
        invariant mem[..] == Blit(was, dest, was[src..src + 4 * i])
      {
        WordsInAt(was, src, n, i);
        ghost var before, rest := log, WordStores(dest + 4 * i + 4, n - i - 1);
        StoreRead(dest, read[i], i, was, src);
        Regroup(before, [WordStore(dest + 4 * i)], rest);
        i := i + 1;
      }
    }

    method StoreRead(dest: nat, w: u32, i: nat, ghost was: seq<byte>, ghost src: nat)
      requires Valid() && dest % 4 == 0 && dest + 4 * i + 4 <= mem.Length == |was| && src + 4 * i + 4 <= |was|
      requires w == WordIn(was, src + 4 * i) && mem[..] == Blit(was, dest, was[src..src + 4 * i])
      modifies mem, this`log
      ensures Valid() && log == old(log) + [WordStore(dest + 4 * i)]
      ensures mem[..] == Blit(was, dest, was[src..src + 4 * i + 4])
    {
      StoreWord(dest + 4 * i, w);
      WordCopied(was, dest, src, i);
    }

    /** The copy as far as `done` bytes: the rest of the source is still as it was. */
    ghost predicate Copying(was: seq<byte>, dest: nat, src: nat, size: nat, done: nat)
      requires dest + size <= |was| && src + size <= |was|
      reads mem
    {
      && done <= size && Apart(dest, src, size)
      && mem[..] == Blit(was, dest, was[src..src + done])
    }

    /** The word loops of memcpy, in steps of 32, 16 and 4 bytes. */
    method CopyAligned(dest: nat, src: nat, size: nat) returns (done: nat)
      requires Valid() && dest % 4 == 0 && dest + size <= mem.Length && src + size <= mem.Length
      requires Apart(dest, src, size)
      modifies mem, this`log
      ensures Valid() && Copying(old(mem[..]), dest, src, size, done) && size - done < 4
      ensures AllStores(log, dest, size, done) == AllStores(old(log), dest, size, 0)
    {
      done := CopySteps(dest, src, size, 0, 8, mem[..]);
      done := CopySteps(dest, src, size, done, 4, old(mem[..]));
      done := CopySteps(dest, src, size, done, 1, old(mem[..]));
    }

    method CopySteps(dest: nat, src: nat, size: nat, from: nat, n: nat, ghost was: seq<byte>) returns (done: nat)
      requires Valid() && dest % 4 == 0 && from % 4 == 0 && n > 0 && mem.Length == |was| && dest + size <= |was|
      requires src + size <= |was|
      requires Copying(was, dest, src, size, from)
      modifies mem, this`log
      ensures Valid() && Copying(was, dest, src, size, done) && done % 4 == 0 && from <= done && size - done < 4 * n
      ensures AllStores(log, dest, size, done) == AllStores(old(log), dest, size, from)
    {
      done := from;
      while size - done >= 4 * n
        invariant Valid() && done % 4 == 0 && from <= done && Copying(was, dest, src, size, done)
        invariant AllStores(log, dest, size, done) == AllStores(old(log), dest, size, from)
      {
        ghost var before := log;
        StillAligned(dest, done, n);
        CopyStep(dest, src, size, done, n, was);
        SplitLog(before, dest, size, done, n);
        done := done + 4 * n;
      }
    }

    method CopyStep(dest: nat, src: nat, size: nat, done: nat, n: nat, ghost was: seq<byte>)
      requires Valid() && (dest + done) % 4 == 0 && mem.Length == |was| && dest + size <= |was|
      requires src + size <= |was|
      requires Copying(was, dest, src, size, done) && done + 4 * n <= size
      modifies mem, this`log
      ensures Valid() && Copying(was, dest, src, size, done + 4 * n)
      ensures log == old(log) + WordStores(dest + done, n)
    {
      ghost var now := mem[..];
      SourceKept(was, now, dest, src, size, done, 4 * n);
      CopyWords(dest + done, src + done, n);
    }

    /** memcpy: every alignment and size, for buffers that do not overlap. */
    method Memcpy(dest: nat, src: nat, size: nat) returns (r: nat)
      requires Valid() && dest + size <= mem.Length && src + size <= mem.Length && Apart(dest, src, size)
      modifies mem, this`log
      ensures Valid() && log == old(log) + MemcpyStores(dest, src, size) && r == dest
      ensures mem[..] == Blit(old(mem[..]), dest, old(mem[src..src + size]))
    {
      r := dest;
      var done := 0;
      if dest % 4 == 0 && src % 4 == 0 {
        done := CopyAligned(dest, src, size);
      }
      CopyBytes(dest, src, size, done, old(mem[..]));
    }

    /** What is left, byte by byte. */
    method CopyBytes(dest: nat, src: nat, size: nat, from: nat, ghost was: seq<byte>)
      requires Valid() && mem.Length == |was| && dest + size <= |was| && src + size <= |was|
      requires Copying(was, dest, src, size, from)
      modifies mem, this`log
      ensures Valid() && Copying(was, dest, src, size, size)
      ensures log == old(log) + ByteStores(dest + from, size - from, dest + from < MEM1_SIZE)
    {
      var done, inMem1 := from, dest + from < MEM1_SIZE;
      while done < size
        invariant Valid() && CopyingBytes(was, dest, src, size, done, old(log), from, inMem1)
      {
        CopyByte(dest, src, size, done, inMem1, was, old(log), from);
        done := done + 1;
      }
    }

    /** The last bytes, copied and stored singly from `from` on. */
    ghost predicate CopyingBytes(was: seq<byte>, dest: nat, src: nat, size: nat, done: nat, before: seq<Store>,
                                 from: nat, inMem1: bool)
      requires dest + size <= |was| && src + size <= |was|
      reads this`log, mem
    {
      && from <= done && Copying(was, dest, src, size, done)
      && log == before + ByteStores(dest + from, done - from, inMem1)
    }

    method CopyByte(dest: nat, src: nat, size: nat, done: nat, inMem1: bool, ghost was: seq<byte>,
                    ghost before: seq<Store>, ghost from: nat)
      requires Valid() && mem.Length == |was| && dest + size <= |was| && src + size <= |was| && done < size
      requires CopyingBytes(was, dest, src, size, done, before, from, inMem1)
      requires !inMem1 ==> dest + done >= MEM1_SIZE
      modifies mem, this`log
      ensures Valid() && CopyingBytes(was, dest, src, size, done + 1, before, from, inMem1)
    {
      OneMoreStore(before, dest + from, done - from, inMem1);
      SourceKept(was, mem[..], dest, src, size, done, 1);
      BlitOne(mem[..], dest + done, mem[src + done]);
      PutByte(dest + done, mem[src + done], inMem1);
    }
  }

  predicate Apart(dest: nat, src: nat, size: nat) { dest + size <= src || src + size <= dest }

  /** The next n bytes of the source are untouched, and copying them extends the copy. */
  lemma {:induction false} SourceKept(was: seq<byte>, now: seq<byte>, dest: nat, src: nat, size: nat, done: nat, n: nat)
    requires dest + size <= |was| && src + size <= |was| && done + n <= size && Apart(dest, src, size)
    requires now == Blit(was, dest, was[src..src + done])
    ensures now[src + done..src + done + n] == was[src + done..src + done + n]
    ensures Blit(now, dest + done, now[src + done..src + done + n]) == Blit(was, dest, was[src..src + (done + n)])
  {
    forall k | src + done <= k < src + done + n
      ensures now[k] == was[k]
    {
      BlitAt(was, dest, was[src..src + done], k);
    }
    BlitSplit(was, dest, was[src..src + done], was[src + done..src + done + n]);
    assert was[src..src + done] + was[src + done..src + done + n] == was[src..src + (done + n)];
  }

  function WordIn(s: seq<byte>, a: nat): (w: u32)
    requires a + 4 <= |s|
  {
    Four(s[a], s[a + 1], s[a + 2], s[a + 3])
  }

  function WordsIn(s: seq<byte>, a: nat, n: nat): (r: seq<u32>)
    requires a + 4 * n <= |s|
    ensures |r| == n
  {
    if n == 0 then [] else WordsIn(s, a, n - 1) + [WordIn(s, a + 4 * (n - 1))]
  }

  lemma {:induction false} WordsInAt(s: seq<byte>, a: nat, n: nat, k: nat)
    requires k < n && a + 4 * n <= |s|
    ensures WordsIn(s, a, n)[k] == WordIn(s, a + 4 * k)
  {
    if k < n - 1 {
      WordsInAt(s, a, n - 1, k);
    }
  }

  lemma {:induction false} WordCopied(was: seq<byte>, dest: nat, src: nat, i: nat)
    requires dest + 4 * i + 4 <= |was| && src + 4 * i + 4 <= |was|
    ensures var a := src + 4 * i;
            var w := DigitsOf(WordIn(was, a));
            Blit(Blit(was, dest, was[src..a]), dest + 4 * i, w) == Blit(was, dest, was[src..a + 4])
  {
    var a := src + 4 * i;
    FourDigits(was[a], was[a + 1], was[a + 2], was[a + 3]);
    BlitSplit(was, dest, was[src..a], was[a..a + 4]);
    assert was[a..a + 4] == [was[a], was[a + 1], was[a + 2], was[a + 3]];
    assert was[src..a] + was[a..a + 4] == was[src..a + 4];
  }
}
