/**
 * Cluster chains over the table of FAT entries, and what create_chain and
 * remove_chain compute on that table.
 */
module FatChains {

  /** Entries `t[2..]` are clusters; 0 is free, a value from |t| on ends a chain. */
  ghost predicate IsChain(t: seq<nat>, ch: seq<nat>) {
    && ch != []
    && (forall i :: 0 <= i < |ch| ==> 2 <= ch[i] < |t|)
    && (forall i {:trigger t[ch[i]]} :: 0 <= i < |ch| - 1 ==> t[ch[i]] == ch[i + 1])
    && t[ch[|ch| - 1]] >= |t|
  }

  ghost predicate Disjoint(a: seq<nat>, b: seq<nat>) {
    forall i, j :: 0 <= i < |a| && 0 <= j < |b| ==> a[i] != b[j]
  }

  /** A set of chains that own their clusters exclusively. */
  ghost predicate Live(t: seq<nat>, chains: seq<seq<nat>>) {
    && (forall k :: 0 <= k < |chains| ==> IsChain(t, chains[k]))
    && (forall j, k :: 0 <= j < k < |chains| ==> Disjoint(chains[j], chains[k]))
  }

  /** Following two equal clusters gives equal tails, so a chain that ends cannot repeat a cluster. */
  lemma {:induction false} ChainAcyclic(t: seq<nat>, ch: seq<nat>, i: nat, j: nat)
    requires IsChain(t, ch) && i < j < |ch|
    ensures ch[i] != ch[j]
    decreases |ch| - j
  {
    assert t[ch[i]] == ch[i + 1];
    if j + 1 < |ch| {
      assert t[ch[j]] == ch[j + 1];
      ChainAcyclic(t, ch, i + 1, j + 1);
    }
  }

  /** Two chains with the same head are the same chain. */
  lemma {:induction false} ChainUnique(t: seq<nat>, a: seq<nat>, b: seq<nat>)
    requires IsChain(t, a) && IsChain(t, b) && a[0] == b[0]
    ensures a == b
    decreases |a|
  {
    assert |a| > 1 ==> t[a[0]] == a[1];
    assert |b| > 1 ==> t[b[0]] == b[1];
    if |a| > 1 {
      ChainTail(t, a);
      ChainTail(t, b);
      ChainUnique(t, a[1..], b[1..]);
      assert a == [a[0]] + a[1..] && b == [b[0]] + b[1..];
    }
  }

  lemma {:induction false} ChainTail(t: seq<nat>, ch: seq<nat>)
    requires IsChain(t, ch) && |ch| > 1
    ensures IsChain(t, ch[1..])
  {
    var r := ch[1..];
    forall i | 0 <= i < |r| - 1
      ensures t[r[i]] == r[i + 1]
    {
      assert t[ch[i + 1]] == ch[i + 2];
    }
  }

  /** Changing entries outside a chain keeps the chain. */
  lemma {:induction false} ChainFrame(t: seq<nat>, t': seq<nat>, ch: seq<nat>)
    requires IsChain(t, ch) && |t'| == |t|
    requires forall i :: 0 <= i < |ch| ==> t'[ch[i]] == t[ch[i]]
    ensures IsChain(t', ch)
  {
  }

  // ---------------------------------------------------------------- free clusters

  /** Number of free clusters among [lo, |t|). */
  function FreeFrom(t: seq<nat>, lo: nat): (n: nat)
    requires lo <= |t|
    ensures n <= |t| - lo
    decreases |t| - lo
  {
    if lo == |t| then 0 else (if t[lo] == 0 then 1 else 0) + FreeFrom(t, lo + 1)
  }

  /** Number of free clusters of the volume. */
  function FreeCount(t: seq<nat>): (n: nat)
    requires |t| >= 2
    ensures n <= |t| - 2
  {
    FreeFrom(t, 2)
  }

  lemma {:induction false} FreeFromUpdate(t: seq<nat>, lo: nat, c: nat, v: nat)
    requires lo <= |t| && c < |t|
    ensures FreeFrom(t[c := v], lo) ==
      FreeFrom(t, lo) + (if lo <= c then (if v == 0 then 1 else 0) - (if t[c] == 0 then 1 else 0) else 0)
    decreases |t| - lo
  {
    if lo < |t| {
      FreeFromUpdate(t, lo + 1, c, v);
    }
  }

  lemma {:induction false} FreeFromZero(t: seq<nat>, lo: nat)
    requires lo <= |t|
    ensures FreeFrom(t, lo) == 0 <==> forall c :: lo <= c < |t| ==> t[c] != 0
    decreases |t| - lo
  {
    if lo < |t| {
      FreeFromZero(t, lo + 1);
    }
  }

  const UNKNOWN_FREE := 0xFFFF_FFFF

  /** The FSInfo count, when known, is the number of free clusters. */
  ghost predicate Exact(free: nat, t: seq<nat>)
    requires |t| >= 2
  {
    free == UNKNOWN_FREE || free == FreeCount(t)
  }

  /** `free_clust++` and `free_clust--` on 32 bits, skipped when the count is not known. */
  function Recount(free: nat, delta: int): (r: nat) {
    if free == UNKNOWN_FREE then free else (free + delta) % 0x1_0000_0000
  }

  lemma {:induction false} ExactFreed(free: nat, t: seq<nat>, c: nat)
    requires 2 <= c < |t| < UNKNOWN_FREE && t[c] != 0 && Exact(free, t)
    ensures Exact(Recount(free, 1), t[c := 0])
  {
    FreeFromUpdate(t, 2, c, 0);
  }

  lemma {:induction false} ExactTaken(free: nat, t: seq<nat>, c: nat, v: nat)
    requires 2 <= c < |t| < UNKNOWN_FREE && t[c] == 0 && v != 0 && Exact(free, t)
    ensures Exact(Recount(free, -1), t[c := v])
  {
    FreeFromUpdate(t, 2, c, v);
  }

  lemma {:induction false} ExactLinked(free: nat, t: seq<nat>, c: nat, v: nat)
    requires 2 <= c < |t| && t[c] != 0 && v != 0 && Exact(free, t)
    ensures Exact(free, t[c := v])
  {
    FreeFromUpdate(t, 2, c, v);
  }

  // ---------------------------------------------------------------- create_chain

  /** The k-th cluster the circular scan looks at when it starts behind `scl`. */
  function ScanAt(n: nat, scl: nat, k: nat): (c: nat)
    requires 3 <= n && 1 <= scl < n && 1 <= k <= n - 2
    ensures 2 <= c < n
  {
    if scl + k < n then scl + k else scl + k - n + 2
  }

  /** How the scan counter of create_chain moves from step `k` to step `k + 1`, or ends. */
  lemma {:induction false} ScanAdvance(n: nat, scl: nat, k: nat, ncl: nat)
    requires 3 <= n && 1 <= scl < n && 0 <= k <= n - 2
    requires if k == 0 then ncl == scl else ncl == ScanAt(n, scl, k) && ncl != scl
    ensures ncl + 1 >= n && 2 > scl ==> k == n - 2
    ensures !(ncl + 1 >= n && 2 > scl) ==>
      k + 1 <= n - 2 && ScanAt(n, scl, k + 1) == if ncl + 1 >= n then 2 else ncl + 1
    ensures k + 1 <= n - 2 && ScanAt(n, scl, k + 1) == scl ==> k + 1 == n - 2
  {
  }

  /** The scan reaches every cluster. */
  lemma {:induction false} ScanReaches(n: nat, scl: nat, c: nat) returns (k: nat)
    requires 3 <= n && 1 <= scl < n && 2 <= c < n
    ensures 1 <= k <= n - 2 && ScanAt(n, scl, k) == c
  {
    k := if c > scl then c - scl else c + n - 2 - scl;
  }

  /** First free cluster from step `k` on; 0 when there is none, 1 when an entry holds the bad value 1. */
  function Scan(t: seq<nat>, scl: nat, k: nat): (r: nat)
    requires 3 <= |t| && 1 <= scl < |t| && 1 <= k
    ensures r < |t|
    decreases |t| - k
  {
    if k > |t| - 2 then 0
    else
      var c := ScanAt(|t|, scl, k);
      if t[c] == 0 then c else if t[c] == 1 then 1 else Scan(t, scl, k + 1)
  }

  /** One round of the loop of create_chain: look at the cluster behind `ncl`. */
  datatype Round = Stop(answer: nat) | Next(ncl: nat)

  function LookBehind(t: seq<nat>, scl: nat, ncl: nat): (r: Round)
    requires 3 <= |t| && 1 <= scl < |t| && 1 <= ncl < |t|
  {
    if ncl + 1 >= |t| && 2 > scl then Stop(0)
    else
      var c := if ncl + 1 >= |t| then 2 else ncl + 1;
      if t[c] == 0 then Stop(c) else if t[c] == 1 then Stop(1) else if c == scl then Stop(0) else Next(c)
  }

  /** After `k` rounds without an answer the loop stands on `ncl` and the scan is still to be decided. */
  ghost predicate Undecided(t: seq<nat>, scl: nat, k: nat, ncl: nat) {
    && 3 <= |t| && 1 <= scl < |t| && 0 <= k <= |t| - 2
    && (if k == 0 then ncl == scl else ncl == ScanAt(|t|, scl, k) && ncl != scl)
    && Scan(t, scl, 1) == Scan(t, scl, k + 1)
  }

  lemma {:induction false} RoundDecides(t: seq<nat>, scl: nat, k: nat, ncl: nat)
    requires Undecided(t, scl, k, ncl)
    ensures 1 <= ncl < |t|
    ensures match LookBehind(t, scl, ncl)
      case Stop(r) => Scan(t, scl, 1) == r
      case Next(c) => Undecided(t, scl, k + 1, c)
  {
    ScanAdvance(|t|, scl, k, ncl);
    if LookBehind(t, scl, ncl) == Stop(0) {
      assert k == |t| - 2 || Scan(t, scl, k + 2) == 0;
    }
  }

  /** The scan answers "full" exactly when no cluster is free (and no entry is bad). */
  lemma {:induction false} ScanSpec(t: seq<nat>, scl: nat, k: nat)
    requires 3 <= |t| && 1 <= scl < |t| && 1 <= k
    ensures var r := Scan(t, scl, k);
      && (r == 0 <==> forall j :: k <= j <= |t| - 2 ==> t[ScanAt(|t|, scl, j)] >= 2)
      && (r >= 2 ==> r < |t| && t[r] == 0)
      && (r >= 2 ==> exists j ::
            && k <= j <= |t| - 2 && r == ScanAt(|t|, scl, j)
            && forall i :: k <= i < j ==> t[ScanAt(|t|, scl, i)] >= 2)
      && (r == 1 ==> exists c :: 2 <= c < |t| && t[c] == 1)
    decreases |t| - k
  {
    if k <= |t| - 2 {
      var c := ScanAt(|t|, scl, k);
      if t[c] == 0 || t[c] == 1 {
      } else {
        ScanSpec(t, scl, k + 1);
      }
    }
  }

  datatype Alloc =
    | Bad               // create_chain answers 1
    | Full              // answers 0
    | Follow(next: nat) // the cluster already has a successor
    | Fresh(taken: nat)   // a free cluster was taken

  function StartPoint(n: nat, clst: nat, last: nat): (scl: nat)
    requires n >= 3 && (clst == 0 || clst < n)
    ensures 1 <= scl < n
  {
    if clst == 0 then (if last == 0 || last >= n then 1 else last) else clst
  }

  /** What create_chain decides from the table alone. */
  function Allocate(t: seq<nat>, clst: nat, last: nat): (a: Alloc)
    requires |t| >= 3
    ensures a.Fresh? ==> 2 <= a.taken < |t| && clst < |t|
  {
    if clst != 0 && (clst < 2 || clst >= |t| || t[clst] < 2) then Bad
    else if clst != 0 && t[clst] < |t| then Follow(t[clst])
    else
      var r := Scan(t, StartPoint(|t|, clst, last), 1);
      if r == 0 then Full else if r == 1 then Bad else Fresh(r)
  }

  /** The table after the decision; `eoc` is the "last link" mark. */
  function AllocTable(t: seq<nat>, clst: nat, a: Alloc, eoc: nat): (t': seq<nat>)
    requires a.Fresh? ==> a.taken < |t| && clst < |t|
    ensures |t'| == |t|
  {
    if a.Fresh? then
      var t1 := t[a.taken := eoc];
      if clst != 0 then t1[clst := a.taken] else t1
    else t
  }

  /** Between two clusters on the circle of all clusters, going up and from the last one to number 2. */
  predicate Between(from: nat, c: nat, to: nat) {
    if from < to then from < c < to else c > from || c < to
  }

  /**
   * The cluster taken is the nearest free one: going up from the cluster the chain ends in, or for a new chain from
   * the one taken last, and round to cluster 2 behind the last one.
   */
  lemma {:induction false} NearestTaken(t: seq<nat>, clst: nat, last: nat)
    requires |t| >= 3 && Allocate(t, clst, last).Fresh?
    ensures var from := if clst != 0 then clst else if 2 <= last < |t| then last else 1;
            var taken := Allocate(t, clst, last).taken;
            t[taken] == 0 && forall c :: 2 <= c < |t| && Between(from, c, taken) ==> t[c] >= 2
  {
    var scl := StartPoint(|t|, clst, last);
    var r := Scan(t, scl, 1);
    ScanSpec(t, scl, 1);
    var j :| 1 <= j <= |t| - 2 && r == ScanAt(|t|, scl, j)
      && forall i :: 1 <= i < j ==> t[ScanAt(|t|, scl, i)] >= 2;
    forall c | 2 <= c < |t| && Between(scl, c, r)
      ensures t[c] >= 2
    {
      var k := ScanReaches(|t|, scl, c);
      assert k < j;
    }
  }

  /** Only a free cluster is ever taken, and "full" means that no cluster is free. */
  lemma {:induction false} AllocateSpec(t: seq<nat>, clst: nat, last: nat)
    requires |t| >= 3
    ensures var a := Allocate(t, clst, last);
      && (a.Fresh? ==> 2 <= a.taken < |t| && t[a.taken] == 0 && clst < |t| && a.taken != clst)
      && (a.Fresh? && clst != 0 ==> 2 <= clst && t[clst] >= |t|)
      && (a.Follow? ==> 2 <= clst < |t| && a.next == t[clst] && 2 <= a.next < |t|)
      && (a.Full? ==> FreeCount(t) == 0)
      && (a.Bad? ==>
            || (clst != 0 && (clst < 2 || clst >= |t| || t[clst] < 2))
            || exists c :: 2 <= c < |t| && t[c] == 1)
  {
    if clst == 0 || (2 <= clst < |t| && t[clst] >= |t|) {
      var scl := StartPoint(|t|, clst, last);
      ScanSpec(t, scl, 1);
      if Scan(t, scl, 1) == 0 {
        forall c | 2 <= c < |t|
          ensures t[c] != 0
        {
          var k := ScanReaches(|t|, scl, c);
        }
        FreeFromZero(t, 2);
      }
    }
  }

  /** With no bad entry, create_chain fails only on a full volume, and always then. */
  lemma {:induction false} FullExactly(t: seq<nat>, clst: nat, last: nat)
    requires |t| >= 3
    requires forall c :: 2 <= c < |t| ==> t[c] != 1
    requires clst == 0 || (2 <= clst < |t| && t[clst] >= |t|)
    ensures Allocate(t, clst, last).Full? <==> FreeCount(t) == 0
    ensures !Allocate(t, clst, last).Full? ==> Allocate(t, clst, last).Fresh?
  {
    AllocateSpec(t, clst, last);
    FreeFromZero(t, 2);
  }

  /** One free cluster less, exactly, per cluster taken. */
  lemma {:induction false} AllocConserves(t: seq<nat>, clst: nat, last: nat, eoc: nat)
    requires |t| >= 3 && eoc >= |t|
    ensures var a := Allocate(t, clst, last);
      FreeCount(AllocTable(t, clst, a, eoc)) == FreeCount(t) - if a.Fresh? then 1 else 0
  {
    var a := Allocate(t, clst, last);
    AllocateSpec(t, clst, last);
    if a.Fresh? {
      FreeFromUpdate(t, 2, a.taken, eoc);
      if clst != 0 {
        FreeFromUpdate(t[a.taken := eoc], 2, clst, a.taken);
      }
    }
  }

  lemma {:induction false} FreeNotInChain(t: seq<nat>, ch: seq<nat>, c: nat)
    requires IsChain(t, ch) && c < |t| && t[c] == 0
    ensures c !in ch
  {
    forall i | 0 <= i < |ch|
      ensures ch[i] != c
    {
      assert i < |ch| - 1 ==> t[ch[i]] == ch[i + 1];
    }
  }

  /** A free cluster linked behind the end of a chain extends exactly that chain. */
  lemma {:induction false} ExtendChain(t: seq<nat>, ch: seq<nat>, x: nat, eoc: nat)
    requires IsChain(t, ch) && 2 <= x < |t| && t[x] == 0 && eoc >= |t|
    ensures IsChain(t[x := eoc][ch[|ch| - 1] := x], ch + [x])
  {
    FreeNotInChain(t, ch, x);
    var last := ch[|ch| - 1];
    var t', ch' := t[x := eoc][last := x], ch + [x];
    forall i | 0 <= i < |ch'| - 1
      ensures t'[ch'[i]] == ch'[i + 1]
    {
      if i < |ch| - 1 {
        ChainAcyclic(t, ch, i, |ch| - 1);
        assert ch[i] in ch;
        assert t[ch[i]] == ch[i + 1];
      }
    }
    assert last in ch;
  }

  /** Taking a cluster for a disjoint chain, or for none, keeps every other chain. */
  lemma {:induction false} OtherChainKept(t: seq<nat>, other: seq<nat>, x: nat, clst: nat, eoc: nat)
    requires IsChain(t, other) && 2 <= x < |t| && t[x] == 0
    requires clst != 0 ==> clst < |t| && clst !in other
    ensures IsChain(AllocTable(t, clst, Fresh(x), eoc), other)
    ensures x !in other
  {
    FreeNotInChain(t, other, x);
    var t' := AllocTable(t, clst, Fresh(x), eoc);
    forall i | 0 <= i < |other|
      ensures t'[other[i]] == t[other[i]]
    {
      assert other[i] in other;
    }
    ChainFrame(t, t', other);
  }

  /** create_chain(0) adds one single-cluster chain to the live ones. */
  lemma {:induction false} CreateKeepsLive(t: seq<nat>, chains: seq<seq<nat>>, x: nat, eoc: nat)
    requires Live(t, chains) && 2 <= x < |t| && t[x] == 0 && eoc >= |t|
    ensures Live(AllocTable(t, 0, Fresh(x), eoc), chains + [[x]])
  {
    var t' := AllocTable(t, 0, Fresh(x), eoc);
    forall k | 0 <= k < |chains|
      ensures IsChain(t', chains[k]) && Disjoint(chains[k], [x])
    {
      OtherChainKept(t, chains[k], x, 0, eoc);
    }
  }

  /** create_chain(clst) on the end of a live chain appends the new cluster to that chain and no other. */
  lemma {:induction false} StretchKeepsLive(t: seq<nat>, chains: seq<seq<nat>>, m: nat, x: nat, eoc: nat)
    requires Live(t, chains) && m < |chains| && 2 <= x < |t| && t[x] == 0 && eoc >= |t|
    ensures IsChain(t, chains[m])
    ensures var clst := chains[m][|chains[m]| - 1];
      Live(AllocTable(t, clst, Fresh(x), eoc), chains[m := chains[m] + [x]])
  {
    var ch := chains[m];
    var clst := ch[|ch| - 1];
    var t', chains' := AllocTable(t, clst, Fresh(x), eoc), chains[m := ch + [x]];
    ExtendChain(t, ch, x, eoc);
    forall k | 0 <= k < |chains| && k != m
      ensures IsChain(t', chains[k]) && Disjoint(chains[k], ch + [x]) && Disjoint(ch + [x], chains[k])
    {
      LiveApart(t, chains, k, m);
      OtherChainGrows(t, ch, chains[k], x, eoc);
    }
    forall j, k | 0 <= j < k < |chains'|
      ensures Disjoint(chains'[j], chains'[k])
    {
    }
  }

  lemma {:induction false} LiveApart(t: seq<nat>, chains: seq<seq<nat>>, j: nat, k: nat)
    requires Live(t, chains) && j < |chains| && k < |chains| && j != k
    ensures Disjoint(chains[j], chains[k])
  {
    assert Disjoint(chains[if j < k then j else k], chains[if j < k then k else j]);
  }

  /** A chain apart from the stretched one stays a chain and stays apart from it. */
  lemma {:induction false} OtherChainGrows(t: seq<nat>, ch: seq<nat>, other: seq<nat>, x: nat, eoc: nat)
    requires IsChain(t, ch) && IsChain(t, other) && Disjoint(other, ch)
    requires 2 <= x < |t| && t[x] == 0
    ensures IsChain(AllocTable(t, ch[|ch| - 1], Fresh(x), eoc), other)
    ensures Disjoint(other, ch + [x]) && Disjoint(ch + [x], other)
  {
    OtherChainKept(t, other, x, ch[|ch| - 1], eoc);
  }

  // ---------------------------------------------------------------- remove_chain

  datatype Removal = Removal(table: seq<nat>, freed: nat, ok: bool)

  /** Number of entries in use. */
  function UsedCount(t: seq<nat>): (n: nat)
    requires |t| >= 2
  {
    |t| - 2 - FreeCount(t)
  }

  lemma {:induction false} UsedShrinks(t: seq<nat>, c: nat)
    requires 2 <= c < |t| && t[c] != 0
    ensures UsedCount(t[c := 0]) == UsedCount(t) - 1 && FreeCount(t[c := 0]) == FreeCount(t) + 1
  {
    FreeFromUpdate(t, 2, c, 0);
  }

  /** What remove_chain does to an arbitrary table, cyclic or cross-linked ones included. */
  function Remove(t: seq<nat>, c: nat): (r: Removal)
    requires |t| >= 2 && 2 <= c
    ensures |r.table| == |t|
    ensures FreeCount(r.table) == FreeCount(t) + r.freed
    decreases UsedCount(t)
  {
    if c >= |t| || t[c] == 0 then Removal(t, 0, true)
    else if t[c] == 1 then Removal(t, 0, false)
    else
      UsedShrinks(t, c);
      var r := Remove(t[c := 0], t[c]);
      r.(freed := r.freed + 1)
  }

  /** The table with every cluster of `ch` freed. */
  function Cleared(t: seq<nat>, ch: seq<nat>): (r: seq<nat>)
    requires forall i :: 0 <= i < |ch| ==> ch[i] < |t|
    ensures |r| == |t|
    ensures forall c :: 0 <= c < |t| ==> r[c] == if c in ch then 0 else t[c]
    decreases |ch|
  {
    if ch == [] then t else Cleared(t[ch[0] := 0], ch[1..])
  }

  /** On a chain, remove_chain frees its clusters and nothing else. */
  lemma {:induction false} RemoveFreesChain(t: seq<nat>, ch: seq<nat>)
    requires IsChain(t, ch)
    ensures Remove(t, ch[0]) == Removal(Cleared(t, ch), |ch|, true)
    decreases |ch|
  {
    var t1 := t[ch[0] := 0];
    if |ch| == 1 {
      assert ch[1..] == [];
      assert Cleared(t, ch) == t1;
    } else {
      ChainTail(t, ch);
      var rest := ch[1..];
      forall i | 0 <= i < |rest|
        ensures t1[rest[i]] == t[rest[i]]
      {
        ChainAcyclic(t, ch, 0, i + 1);
      }
      ChainFrame(t, t1, rest);
      RemoveFreesChain(t1, rest);
      assert t[ch[0]] == rest[0];
    }
  }

  /** Removing one live chain keeps the others. */
  lemma {:induction false} RemoveKeepsLive(t: seq<nat>, chains: seq<seq<nat>>, m: nat)
    requires Live(t, chains) && m < |chains|
    ensures IsChain(t, chains[m])
    ensures Live(Remove(t, chains[m][0]).table, chains[..m] + chains[m + 1..])
  {
    var ch := chains[m];
    RemoveFreesChain(t, ch);
    var rest := chains[..m] + chains[m + 1..];
    forall k | 0 <= k < |rest|
      ensures IsChain(Cleared(t, ch), rest[k])
    {
      var k' := if k < m then k else k + 1;
      LiveApart(t, chains, k', m);
      ClearedKeeps(t, ch, chains[k']);
    }
    forall j, k | 0 <= j < k < |rest|
      ensures Disjoint(rest[j], rest[k])
    {
      LiveApart(t, chains, if j < m then j else j + 1, if k < m then k else k + 1);
    }
  }

  lemma {:induction false} ClearedKeeps(t: seq<nat>, ch: seq<nat>, other: seq<nat>)
    requires IsChain(t, ch) && IsChain(t, other) && Disjoint(other, ch)
    ensures IsChain(Cleared(t, ch), other)
  {
    forall i | 0 <= i < |other|
      ensures Cleared(t, ch)[other[i]] == t[other[i]]
    {
      assert other[i] !in ch;
    }
    ChainFrame(t, Cleared(t, ch), other);
  }
}
