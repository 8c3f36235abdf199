/** Long file names: the directory entries fit_lfn writes and pick_lfn reads. */
module FatName {
  import opened Bytes

  const MAX_LFN := 255
  const LLE := 0x40         // marks the entry with the end of the name
  const PAD := 0xFFFF

  type wchar = x: int | 0 <= x < 0x1_0000

  /** Offset of character `s` of an entry. */
  function Ofs(s: nat): (o: nat)
    requires s < 13
  {
    if s < 5 then 1 + 2 * s else if s < 11 then 4 + 2 * s else 6 + 2 * s
  }

  function CharAt(dir: seq<byte>, s: nat): (c: wchar)
    requires |dir| == 32 && s < 13
  {
    var lo: int, hi: int := dir[Ofs(s)], dir[Ofs(s) + 1];
    lo + 0x100 * hi
  }

  // ---------------------------------------------------------------- writing

  /** What position `i` of the entries of a name holds: the name, its end mark, then padding. */
  function Slot(name: seq<wchar>, i: nat): (c: wchar) {
    if i < |name| then name[i] else if i == |name| then 0 else PAD
  }

  /** Entry `ord` of a name: its thirteen characters, and the end flag exactly on the last entry. */
  ghost predicate Fitted(dir: seq<byte>, name: seq<wchar>, ord: nat, sum: byte) {
    && |dir| == 32 && ord >= 1
    && (forall s :: 0 <= s < 13 ==> CharAt(dir, s) == Slot(name, (ord - 1) * 13 + s))
    && dir[0] == ord + (if ord * 13 >= |name| then LLE else 0)
    && dir[11] == 0x0F && dir[12] == 0 && dir[13] == sum && dir[26] == 0 && dir[27] == 0
  }

  /** The entry byte by byte: characters 1 to 5 at offset 1, 6 to 11 at 14, 12 and 13 at 28, low byte first. */
  lemma {:induction false} FittedBytes(dir: seq<byte>, name: seq<wchar>, ord: nat, sum: byte, s: nat)
    requires Fitted(dir, name, ord, sum) && s < 13
    ensures var at := if s < 5 then 1 + 2 * s else if s < 11 then 14 + 2 * (s - 5) else 28 + 2 * (s - 11);
            LittleEndian(dir[at..at + 2]) == Slot(name, (ord - 1) * 13 + s)
  {
    var at := Ofs(s);
    var pair := dir[at..at + 2];
    assert pair[0] == dir[at] && pair[1..] == [dir[at + 1]] && [dir[at + 1]][1..] == [];
    assert LittleEndian([dir[at + 1]]) == dir[at + 1];
    assert LittleEndian(pair) == CharAt(dir, s);
  }

  /** A name as callers hand it over: no end mark and no padding inside. */
  predicate Plain(name: seq<wchar>) {
    forall i :: 0 <= i < |name| ==> name[i] != 0 && name[i] != PAD
  }

  /** Store one character of an entry. */
  method PutChar(dir: array<byte>, s: nat, wc: wchar)
    requires dir.Length == 32 && s < 13
    modifies dir
    ensures CharAt(dir[..], s) == wc
    ensures forall k :: 0 <= k < 13 && k != s ==> CharAt(dir[..], k) == CharAt(old(dir[..]), k)
    ensures forall o :: o in {0, 11, 12, 13, 26, 27} ==> dir[o] == old(dir[o])
  {
    dir[Ofs(s)], dir[Ofs(s) + 1] := wc % 256, wc / 256;
    forall k | 0 <= k < 13 && k != s
      ensures CharAt(dir[..], k) == CharAt(old(dir[..]), k)
    {
      assert Ofs(k) + 1 < Ofs(s) || Ofs(s) + 1 < Ofs(k);
    }
  }

  /** fit_lfn; `lfn` is the name with its end mark. */
  method FitLfn(lfn: seq<wchar>, dir: array<byte>, ord: nat, sum: byte)
    requires dir.Length == 32 && |lfn| >= 1 && lfn[|lfn| - 1] == 0 && Plain(lfn[..|lfn| - 1])
    requires 1 <= ord <= 20 && (ord - 1) * 13 < |lfn| - 1
    modifies dir
    ensures Fitted(dir[..], lfn[..|lfn| - 1], ord, sum)
  {
    ghost var name := lfn[..|lfn| - 1];
    dir[13], dir[11], dir[12] := sum, 0x0F, 0;
    dir[26], dir[27] := 0, 0;
    var i: nat := (ord - 1) * 13;
    var s, wc: wchar := 0, 0;
    while s < 13
      invariant 0 <= s <= 13
      invariant wc == PAD <==> (ord - 1) * 13 + s > |name|
      invariant i == if wc == PAD then |name| + 1 else (ord - 1) * 13 + s
      invariant forall k :: 0 <= k < s ==> CharAt(dir[..], k) == Slot(name, (ord - 1) * 13 + k)
      invariant dir[11] == 0x0F && dir[12] == 0 && dir[13] == sum && dir[26] == 0 && dir[27] == 0
    {
      if wc != PAD {
        wc := lfn[i];
        i := i + 1;
      }
      PutChar(dir, s, wc);
      if wc == 0 {
        wc := PAD;
      }
      s := s + 1;
    }
    ghost var was := dir[..];
    dir[0] := if wc == PAD || lfn[i] == 0 then ord + LLE else ord;
    assert forall k :: 0 <= k < 13 ==> CharAt(dir[..], k) == CharAt(was, k);
  }

  // ---------------------------------------------------------------- reading

  /** Characters of the entry up to and including the first end mark. */
  function Used(dir: seq<byte>, s: nat): (n: nat)
    requires |dir| == 32 && s <= 13
    ensures s <= n <= 13
    decreases 13 - s
  {
    if s == 13 then 13 else if CharAt(dir, s) == 0 then s + 1 else Used(dir, s + 1)
  }

  /** Buffer index of the first character of the entry, on 32 bits. */
  function Start(dir: seq<byte>): (i: nat)
    requires |dir| == 32
  {
    (dir[0] as int % 0x40 - 1) * 13 % U32
  }

  predicate Last(dir: seq<byte>)
    requires |dir| == 32
  {
    dir[0] / 0x40 % 2 == 1
  }

  /** pick_lfn accepts an entry exactly when it is padded and fits the buffer. */
  predicate Accepts(dir: seq<byte>)
    requires |dir| == 32
  {
    && Start(dir) + Used(dir, 0) - 1 < MAX_LFN
    && (forall s :: Used(dir, 0) <= s < 13 ==> CharAt(dir, s) == PAD)
    && (Last(dir) ==> Start(dir) + Used(dir, 0) < MAX_LFN)
  }

  /** pick_lfn. */
  method PickLfn(buf: array<wchar>, dir: seq<byte>) returns (ok: bool)
    requires buf.Length == MAX_LFN + 1 && |dir| == 32
    modifies buf
    ensures ok <==> Accepts(dir)
    ensures ok ==> forall k :: 0 <= k < buf.Length ==>
      buf[k] == if Start(dir) <= k < Start(dir) + Used(dir, 0) then CharAt(dir, k - Start(dir))
                else if Last(dir) && k == Start(dir) + Used(dir, 0) then 0 else old(buf[k])
  {
    var i: nat := (dir[0] as int % 0x40 - 1) * 13 % U32;
    var s, wc: wchar := 0, 1;
    while s < 13
      invariant 0 <= s <= 13
      invariant wc != 0 ==> i == Start(dir) + s && Used(dir, 0) == Used(dir, s)
      invariant wc == 0 ==> s >= 1 && Used(dir, 0) <= s && i == Start(dir) + Used(dir, 0)
      invariant wc == 0 ==> forall k :: Used(dir, 0) <= k < s ==> CharAt(dir, k) == PAD
      invariant s > 0 ==> i - 1 < MAX_LFN
      invariant s > 0 ==> forall k :: 0 <= k < buf.Length ==>
        buf[k] == if Start(dir) <= k < i then CharAt(dir, k - Start(dir)) else old(buf[k])
      invariant s == 0 ==> forall k :: 0 <= k < buf.Length ==> buf[k] == old(buf[k])
    {
      var uc := CharAt(dir, s);
      if wc != 0 {
        if i >= MAX_LFN {
          return false;
        }
        wc := uc;
        buf[i] := wc;
        i := i + 1;
      } else {
        if uc != PAD {
          return false;
        }
      }
      s := s + 1;
    }
    if dir[0] / 0x40 % 2 == 1 {
      if i >= MAX_LFN {
        return false;
      }
      buf[i] := 0;
    }
    ok := true;
  }

  // ---------------------------------------------------------------- the round trip

  /** The number of entries dir_register stores for a name. */
  function Entries(n: nat): (k: nat)
    ensures n > 0 ==> 13 * (k - 1) < n <= 13 * k
  {
    (n + 25) / 13 - 1
  }

  /** An entry of a name of 1 to 255 characters is accepted unless the name is longer than 253. */
  lemma {:induction false} FittedAccepted(dir: seq<byte>, name: seq<wchar>, ord: nat, sum: byte)
    requires Fitted(dir, name, ord, sum) && Plain(name) && 1 <= |name| <= 255 && 1 <= ord <= Entries(|name|)
    ensures Start(dir) == (ord - 1) * 13 && (Last(dir) <==> ord == Entries(|name|))
    ensures Used(dir, 0) == if ord * 13 <= |name| then 13 else |name| - (ord - 1) * 13 + 1
    ensures Accepts(dir) <==> (ord < Entries(|name|) || |name| <= 253)
  {
    UsedFitted(dir, name, ord, sum, 0);
  }

  lemma {:induction false} UsedFitted(dir: seq<byte>, name: seq<wchar>, ord: nat, sum: byte, s: nat)
    requires Fitted(dir, name, ord, sum) && Plain(name) && 1 <= ord && s <= 13 && (ord - 1) * 13 + s <= |name|
    ensures Used(dir, s) == if ord * 13 <= |name| then 13 else |name| - (ord - 1) * 13 + 1
    decreases 13 - s
  {
    if s < 13 && (ord - 1) * 13 + s < |name| {
      UsedFitted(dir, name, ord, sum, s + 1);
    }
  }

  /** dir_register: the entries of a name, the last one first. */
  method StoreName(name: seq<wchar>, sum: byte) returns (entries: seq<seq<byte>>)
    requires Plain(name) && 1 <= |name| <= 255
    ensures |entries| == Entries(|name|)
    ensures forall k :: 0 <= k < |entries| ==> Fitted(entries[k], name, Entries(|name|) - k, sum)
  {
    var lfn := name + [0];
    assert lfn[..|lfn| - 1] == name;
    entries := [];
    var ne := (|name| + 25) / 13;
    ne := ne - 1;
    while ne > 0
      invariant 0 <= ne <= Entries(|name|) && |entries| == Entries(|name|) - ne
      invariant forall k :: 0 <= k < |entries| ==> Fitted(entries[k], name, Entries(|name|) - k, sum)
    {
      var dir := new byte[32];
      FitLfn(lfn, dir, ne, sum);
      entries := entries + [dir[..]];
      ne := ne - 1;
    }
  }

  /** Reading a directory: every entry in turn into the name buffer. */
  method LoadName(entries: seq<seq<byte>>, ghost name: seq<wchar>, ghost sum: byte)
    returns (ok: bool, buf: array<wchar>)
    requires Plain(name) && 1 <= |name| <= 255 && |entries| == Entries(|name|)
    requires forall k :: 0 <= k < |entries| ==> Fitted(entries[k], name, Entries(|name|) - k, sum)
    ensures fresh(buf) && buf.Length == MAX_LFN + 1
    ensures ok <==> |name| <= 253
    ensures ok ==> buf[..|name|] == name && buf[|name|] == 0
  {
    buf := new wchar[MAX_LFN + 1];
    ok := true;
    var k := 0;
    while k < |entries|
      invariant 0 <= k <= |entries| && ok && (k > 0 ==> |name| <= 253)
      invariant k > 0 ==> forall i :: (Entries(|name|) - k) * 13 <= i < |name| ==> buf[i] == name[i]
      invariant k > 0 ==> buf[|name|] == 0
    {
      FittedAccepted(entries[k], name, Entries(|name|) - k, sum);
      ok := PickLfn(buf, entries[k]);
      if !ok {
        return;
      }
      k := k + 1;
    }
  }

  /**
   * A name of 1 to 255 characters written by dir_register is read back exactly
   * when it has at most 253 characters, although _MAX_LFN is 255.
   */
  method NameRoundTrip(name: seq<wchar>, sum: byte) returns (ok: bool, back: seq<wchar>)
    requires Plain(name) && 1 <= |name| <= 255
    ensures ok <==> |name| <= 253
    ensures ok ==> back == name
  {
    var entries := StoreName(name, sum);
    var buf;
    ok, buf := LoadName(entries, name, sum);
    back := if ok then buf[..|name|] else [];
  }
}
