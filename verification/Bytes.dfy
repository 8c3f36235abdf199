module Options {
  datatype Option<T> = None | Some(value: T)
}

/** Byte and sector vocabulary shared by the modules. */
module Bytes {

  type byte = x: int | 0 <= x < 256

  type u32 = x: int | 0 <= x < U32

  const U32 := 0x1_0000_0000

  /** Little-endian value of the bytes at the front of `s`. */
  function LittleEndian(s: seq<byte>): (v: nat)
  {
    if s == [] then 0 else s[0] + 256 * LittleEndian(s[1..])
  }

  /** Big-endian value of the bytes of `s`. */
  function BigEndian(s: seq<byte>): (v: nat)
  {
    if s == [] then 0 else 256 * BigEndian(s[..|s| - 1]) + s[|s| - 1]
  }

  lemma {:induction false} BigPair(s: seq<byte>)
    requires |s| == 2
    ensures BigEndian(s) == 0x100 * (s[0] as int) + s[1]
  {
    assert s[..1] == [s[0]] && [s[0]][..0] == [];
    assert BigEndian([s[0]]) == s[0];
  }

  lemma {:induction false} BigWord(s: seq<byte>)
    requires |s| == 4
    ensures BigEndian(s) == 0x1_0000 * BigEndian(s[..2]) + BigEndian(s[2..])
    ensures BigEndian(s) == 0x100_0000 * (s[0] as int) + 0x1_0000 * (s[1] as int) + 0x100 * (s[2] as int) + s[3]
  {
    assert s[..3][..2] == s[..2];
    BigPair(s[..2]);
    BigPair(s[2..]);
  }

  function Zeros(n: nat): (r: seq<byte>)
    ensures |r| == n && forall k :: 0 <= k < n ==> r[k] == 0
  {
    if n == 0 then [] else Zeros(n - 1) + [0]
  }

  lemma {:induction false} SliceSnoc<T>(s: seq<T>, lo: nat, hi: nat)
    requires lo <= hi < |s|
    ensures s[lo..hi + 1] == s[lo..hi] + [s[hi]]
  {
  }

  /** `s` with the bytes of `data` written from offset `off` on. */
  function Blit(s: seq<byte>, off: nat, data: seq<byte>): (r: seq<byte>)
    requires off + |data| <= |s|
    ensures |r| == |s|
    decreases |data|
  {
    if data == [] then s else Blit(s[off := data[0]], off + 1, data[1..])
  }

  lemma {:induction false} BlitAt(s: seq<byte>, off: nat, data: seq<byte>, k: nat)
    requires off + |data| <= |s| && k < |s|
    ensures Blit(s, off, data)[k] == if off <= k < off + |data| then data[k - off] else s[k]
    decreases |data|
  {
    if data != [] {
      BlitAt(s[off := data[0]], off + 1, data[1..], k);
    }
  }

  lemma {:induction false} BlitIs(s: seq<byte>, off: nat, data: seq<byte>, r: seq<byte>)
    requires off + |data| <= |s| == |r|
    requires forall k :: 0 <= k < |s| ==> r[k] == if off <= k < off + |data| then data[k - off] else s[k]
    ensures r == Blit(s, off, data)
  {
    forall k | 0 <= k < |s|
      ensures r[k] == Blit(s, off, data)[k]
    {
      BlitAt(s, off, data, k);
    }
  }

  lemma {:induction false} BlitSlice(s: seq<byte>, off: nat, data: seq<byte>)
    requires off + |data| <= |s|
    ensures Blit(s, off, data) == s[..off] + data + s[off + |data|..]
  {
    BlitIs(s, off, data, s[..off] + data + s[off + |data|..]);
  }

  lemma {:induction false} BlitHead(s: seq<byte>, data: seq<byte>)
    requires |data| <= |s|
    ensures Blit(s, 0, data)[..|data|] == data
  {
    BlitSlice(s, 0, data);
  }

  /** mem_cpy into a buffer. */
  method MemCpy(dst: array<byte>, off: nat, src: seq<byte>)
    requires off + |src| <= dst.Length
    modifies dst
    ensures dst[..] == Blit(old(dst[..]), off, src)
  {
    forall k | off <= k < off + |src| {
      dst[k] := src[k - off];
    }
    BlitIs(old(dst[..]), off, src, dst[..]);
  }

  lemma {:induction false} SliceGrows(s: seq<byte>, p: nat, q: nat, r: nat)
    requires p <= q <= r <= |s|
    ensures s[p..q] + s[q..r] == s[p..r]
  {
  }

  lemma {:induction false} PrefixGrows(s: seq<byte>, n: nat, w: nat)
    requires n + w <= |s|
    ensures s[..n] + s[n..][..w] == s[..n + w]
  {
  }

  /** Two copies side by side are one. */
  lemma {:induction false} BlitSplit(s: seq<byte>, off: nat, a: seq<byte>, b: seq<byte>)
    requires off + |a| + |b| <= |s|
    ensures Blit(Blit(s, off, a), off + |a|, b) == Blit(s, off, a + b)
    decreases |a|
  {
    if a == [] {
      assert a + b == b;
    } else {
      BlitSplit(s[off := a[0]], off + 1, a[1..], b);
      assert (a + b)[1..] == a[1..] + b;
    }
  }
}

/**
 * Division and multiplication facts. Quot, Rem and Product are the ordinary
 * operations by repeated subtraction and addition: a proof looks into them
 * only through the lemmas below.
 */
module Arithmetic {

  lemma {:induction false} DivModUnique(x: int, d: int, q: int, r: int)
    requires d > 0 && 0 <= r < d && x == q * d + r
    ensures x / d == q && x % d == r
  {
    if x / d > q {
      MulMono(q + 1, x / d, d);
    } else if x / d < q {
      MulMono(x / d, q - 1, d);
    }
  }

  /** 2 to the power of n. */
  function Power(n: nat): (r: nat)
    ensures r > 0
  {
    if n == 0 then 1 else 2 * Power(n - 1)
  }

  /** a * b by repeated addition, for bounds that are carried around but seldom looked into. */
  function Product(a: nat, b: nat): (p: nat)
  {
    if a == 0 then 0 else b + Product(a - 1, b)
  }

  lemma {:induction false} ProductIs(a: nat, b: nat)
    ensures Product(a, b) == a * b
  {
    if a > 0 {
      ProductIs(a - 1, b);
      Distributes(b, a - 1, 1, 1);
    }
  }

  /** The two lowest digits of a number, the first in base `m`, the second in base `n`. */
  lemma {:induction false} Digits(x: nat, m: nat, n: nat)
    requires m > 0 && n > 0
    ensures m * n > 0 && x % (m * n) == x % m + m * (x / m % n)
  {
    var q := x / m;
    DivModIs(x, m);
    DivModIs(q, n);
    TwoDigits(x, m, n, q, x % m, q / n, q % n);
  }

  lemma {:induction false} DivModIs(x: nat, d: nat)
    requires d > 0
    ensures x == d * (x / d) + x % d && x % d < d
  {
  }

  lemma {:induction false} TwoDigits(x: nat, m: nat, n: nat, q: nat, r: nat, q': nat, r': nat)
    requires r < m && r' < n && x == m * q + r && q == n * q' + r'
    ensures m * n > 0 && x % (m * n) == r + m * r'
  {
    Distributes(m, q', n, r');
    RoomFor(m, r', n);
    DivModUnique(x, m * n, q', m * r' + r);
  }

  lemma {:induction false} Distributes(w: nat, q: nat, m: nat, r: nat)
    ensures w * (q * m + r) == q * (w * m) + w * r
  {
  }

  /** A place below m leaves room for w more in a block of w * m. */
  lemma {:induction false} RoomFor(w: nat, r: nat, m: nat)
    requires r < m && w > 0
    ensures w * r + w <= w * m && w * m > 0
  {
    MulMono(r + 1, m, w);
  }

  lemma {:induction false} ProductSum(a: nat, b: nat, k: nat)
    ensures Product(a + b, k) == Product(a, k) + Product(b, k)
  {
    if a > 0 {
      ProductSum(a - 1, b, k);
    }
  }

  lemma {:induction false} ProductMono(a: nat, b: nat, k: nat)
    requires a <= b
    ensures Product(a, k) <= Product(b, k)
  {
    if a < b {
      ProductGap(a, b, k);
    }
  }

  lemma {:induction false} ProductGap(a: nat, b: nat, k: nat)
    requires a < b
    ensures Product(a, k) + k <= Product(b, k)
    decreases b
  {
    if a == 0 {
    } else {
      ProductGap(a - 1, b - 1, k);
    }
  }

  lemma {:induction false} MulMono(a: int, b: int, k: int)
    requires a <= b && 0 <= k
    ensures a * k <= b * k
  {
    assert (b - a) * k >= 0;
  }

  function Quot(a: nat, m: nat): (q: nat)
    requires m > 0
    decreases a
  {
    if a < m then 0 else 1 + Quot(a - m, m)
  }

  function Rem(a: nat, m: nat): (r: nat)
    requires m > 0
    ensures r < m
    decreases a
  {
    if a < m then a else Rem(a - m, m)
  }

  lemma {:induction false} QuotRem(a: nat, m: nat)
    requires m > 0
    ensures a == Quot(a, m) * m + Rem(a, m)
    decreases a
  {
    if a >= m {
      QuotRem(a - m, m);
      Distributes(m, Quot(a - m, m), 1, 1);
    }
  }

  lemma {:induction false} QuotIs(a: nat, m: nat)
    requires m > 0
    ensures Quot(a, m) == a / m && Rem(a, m) == a % m
  {
    QuotRem(a, m);
    DivModUnique(a, m, Quot(a, m), Rem(a, m));
  }

  lemma {:induction false} QuotUnique(a: nat, m: nat, q: nat, r: nat)
    requires m > 0 && r < m && a == Product(q, m) + r
    ensures Quot(a, m) == q && Rem(a, m) == r
  {
    ProductIs(q, m);
    QuotIs(a, m);
    DivModUnique(a, m, q, r);
  }

  lemma {:induction false} QuotProduct(a: nat, m: nat)
    requires m > 0
    ensures a == Product(Quot(a, m), m) + Rem(a, m)
  {
    QuotRem(a, m);
    ProductIs(Quot(a, m), m);
  }

  /** Moving by less than what is left of the block stays in the block. */
  lemma {:induction false} QuotStep(a: nat, k: nat, m: nat)
    requires m > 0 && Rem(a, m) + k < m
    ensures Quot(a + k, m) == Quot(a, m) && Rem(a + k, m) == Rem(a, m) + k
  {
    QuotProduct(a, m);
    QuotUnique(a + k, m, Quot(a, m), Rem(a, m) + k);
  }

  /** Moving by exactly what is left of the block reaches the next block. */
  lemma {:induction false} QuotNext(a: nat, k: nat, m: nat)
    requires m > 0 && Rem(a, m) + k == m
    ensures Quot(a + k, m) == Quot(a, m) + 1 && Rem(a + k, m) == 0
  {
    QuotProduct(a, m);
    QuotUnique(a + k, m, Quot(a, m) + 1, 0);
  }

  /** Moving by whole blocks. */
  lemma {:induction false} QuotAdd(a: nat, q: nat, m: nat)
    requires m > 0
    ensures Quot(a + Product(q, m), m) == Quot(a, m) + q && Rem(a + Product(q, m), m) == Rem(a, m)
  {
    QuotProduct(a, m);
    ProductSum(Quot(a, m), q, m);
    QuotUnique(a + Product(q, m), m, Quot(a, m) + q, Rem(a, m));
  }

  /** One position back. */
  lemma {:induction false} QuotPrev(a: nat, m: nat)
    requires m > 0 && a > 0
    ensures Rem(a, m) == 0 ==> Quot(a, m) > 0 && Quot(a - 1, m) == Quot(a, m) - 1 && Rem(a - 1, m) == m - 1
    ensures Rem(a, m) != 0 ==> Quot(a - 1, m) == Quot(a, m) && Rem(a - 1, m) == Rem(a, m) - 1
  {
    if Rem(a - 1, m) + 1 < m {
      QuotStep(a - 1, 1, m);
    } else {
      QuotNext(a - 1, 1, m);
    }
  }

  lemma {:induction false} QuotMono(a: nat, b: nat, m: nat)
    requires a <= b && m > 0
    ensures Quot(a, m) <= Quot(b, m)
  {
    QuotRem(a, m);
    QuotRem(b, m);
    if Quot(a, m) > Quot(b, m) {
      MulMono(Quot(b, m) + 1, Quot(a, m), m);
    }
  }

  lemma {:induction false} QuotInjective(a: nat, b: nat, m: nat)
    requires m > 0 && Quot(a, m) == Quot(b, m) && Rem(a, m) == Rem(b, m)
    ensures a == b
  {
    QuotRem(a, m);
    QuotRem(b, m);
  }

  lemma {:induction false} QuotBelow(a: nat, n: nat, m: nat)
    requires m > 0
    ensures a < Product(n, m) <==> Quot(a, m) < n
  {
    QuotRem(a, m);
    ProductIs(n, m);
    if Quot(a, m) >= n {
      MulMono(n, Quot(a, m), m);
    } else {
      MulMono(Quot(a, m) + 1, n, m);
    }
  }

  lemma {:induction false} ProductAssoc(k: nat, n: nat, m: nat)
    ensures Product(k, Product(n, m)) == Product(Product(k, n), m)
  {
    if k > 0 {
      ProductAssoc(k - 1, n, m);
      ProductSum(n, Product(k - 1, n), m);
    }
  }

  /** Dividing by a product is dividing twice. */
  lemma {:induction false} QuotQuot(a: nat, m: nat, n: nat)
    requires m > 0 && n > 0
    ensures Product(n, m) >= m && Quot(a, Product(n, m)) == Quot(Quot(a, m), n)
  {
    var q, r := Quot(a, m), Rem(a, m);
    var k, i := Quot(q, n), Rem(q, n);
    QuotProduct(a, m);
    QuotProduct(q, n);
    ProductSum(Product(k, n), i, m);
    ProductAssoc(k, n, m);
    ProductGap(i, n, m);
    QuotUnique(a, Product(n, m), k, Product(i, m) + r);
  }
}
