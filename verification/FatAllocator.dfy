/** Runs of the cluster allocator: chains created, stretched and removed in any order. */
module FatAllocator {
  import opened FatChains

  /** `last` is the allocator's hint at the time of the call. */
  datatype Call = New(last: nat) | Grow(chain: nat, last: nat) | Drop(chain: nat)

  /** The table and the chains the callers own. */
  datatype State = State(table: seq<nat>, chains: seq<seq<nat>>)

  ghost predicate Sound(s: State) { |s.table| >= 3 && Live(s.table, s.chains) }

  function Total(chains: seq<seq<nat>>): (n: nat) {
    if chains == [] then 0 else Total(chains[..|chains| - 1]) + |chains[|chains| - 1]|
  }

  lemma {:induction false} TotalJoin(a: seq<seq<nat>>, b: seq<seq<nat>>)
    ensures Total(a + b) == Total(a) + Total(b)
  {
    if b == [] {
      assert a + b == a;
    } else {
      assert (a + b)[..|a + b| - 1] == a + b[..|b| - 1];
      TotalJoin(a, b[..|b| - 1]);
    }
  }

  lemma {:induction false} TotalOne(ch: seq<nat>)
    ensures Total([ch]) == |ch|
  {
    assert [ch][..0] == [];
  }

  /** Total length around chain m. */
  lemma {:induction false} TotalAt(chains: seq<seq<nat>>, m: nat, ch: seq<nat>)
    requires m < |chains|
    ensures Total(chains[m := ch]) == Total(chains[..m] + chains[m + 1..]) + |ch|
  {
    TotalJoin(chains[..m], [ch]);
    TotalJoin(chains[..m] + [ch], chains[m + 1..]);
    TotalJoin(chains[..m], chains[m + 1..]);
    TotalOne(ch);
    assert chains[m := ch] == chains[..m] + [ch] + chains[m + 1..];
  }

  lemma {:induction false} TotalGrows(chains: seq<seq<nat>>, m: nat, x: nat)
    requires m < |chains|
    ensures Total(chains[m := chains[m] + [x]]) == Total(chains) + 1
  {
    TotalAt(chains, m, chains[m] + [x]);
    TotalAt(chains, m, chains[m]);
    assert chains[m := chains[m]] == chains;
  }

  function Tail(ch: seq<nat>): (c: nat) { if ch == [] then 0 else ch[|ch| - 1] }

  /** One call; a full volume and a chain that is not there change nothing. */
  function Step(s: State, call: Call, eoc: nat): (r: State)
    requires |s.table| >= 3
    ensures |r.table| == |s.table|
  {
    match call
    case New(last) =>
      var a := Allocate(s.table, 0, last);
      if a.Fresh? then State(AllocTable(s.table, 0, a, eoc), s.chains + [[a.taken]]) else s
    case Grow(m, last) =>
      if m >= |s.chains| then s
      else
        var a := Allocate(s.table, Tail(s.chains[m]), last);
        if a.Fresh? then State(AllocTable(s.table, Tail(s.chains[m]), a, eoc), s.chains[m := s.chains[m] + [a.taken]])
        else s
    case Drop(m) =>
      if m >= |s.chains| || s.chains[m] == [] || s.chains[m][0] < 2 then s
      else State(Remove(s.table, s.chains[m][0]).table, s.chains[..m] + s.chains[m + 1..])
  }

  /** Clusters are neither lost nor made: what leaves a chain is free, what leaves the free ones is in a chain. */
  ghost predicate Conserves(s: State, r: State)
    requires |s.table| >= 3
  {
    Sound(r) && |r.table| == |s.table| && FreeCount(r.table) + Total(r.chains) == FreeCount(s.table) + Total(s.chains)
  }

  lemma {:induction false} NewConserves(s: State, last: nat, eoc: nat)
    requires Sound(s) && eoc >= |s.table|
    ensures Conserves(s, Step(s, New(last), eoc))
  {
    var a := Allocate(s.table, 0, last);
    AllocateSpec(s.table, 0, last);
    if a.Fresh? {
      CreateKeepsLive(s.table, s.chains, a.taken, eoc);
      AllocConserves(s.table, 0, last, eoc);
      TotalJoin(s.chains, [[a.taken]]);
      TotalOne([a.taken]);
    }
  }

  lemma {:induction false} GrowConserves(s: State, m: nat, last: nat, eoc: nat)
    requires Sound(s) && eoc >= |s.table| && m < |s.chains|
    ensures Conserves(s, Step(s, Grow(m, last), eoc))
  {
    var a := Allocate(s.table, Tail(s.chains[m]), last);
    if a.Fresh? {
      FreshConserves(s, m, last, eoc, a.taken);
    }
  }

  lemma {:induction false} FreshConserves(s: State, m: nat, last: nat, eoc: nat, x: nat)
    requires Sound(s) && eoc >= |s.table| && m < |s.chains| && Allocate(s.table, Tail(s.chains[m]), last) == Fresh(x)
    ensures x < |s.table| && Tail(s.chains[m]) < |s.table|
    ensures Conserves(s, State(AllocTable(s.table, Tail(s.chains[m]), Fresh(x), eoc), s.chains[m := s.chains[m] + [x]]))
  {
    var tail := Tail(s.chains[m]);
    AllocateSpec(s.table, tail, last);
    AllocConserves(s.table, tail, last, eoc);
    TotalGrows(s.chains, m, x);
    StretchKeepsLive(s.table, s.chains, m, x, eoc);
  }

  lemma {:induction false} DropConserves(s: State, m: nat, eoc: nat)
    requires Sound(s) && m < |s.chains|
    ensures Conserves(s, Step(s, Drop(m), eoc))
  {
    var ch := s.chains[m];
    assert IsChain(s.table, ch);
    RemoveFreesChain(s.table, ch);
    RemoveKeepsLive(s.table, s.chains, m);
    TotalAt(s.chains, m, ch);
    assert s.chains[m := ch] == s.chains;
  }

  lemma {:induction false} StepConserves(s: State, call: Call, eoc: nat)
    requires Sound(s) && eoc >= |s.table|
    ensures Conserves(s, Step(s, call, eoc))
  {
    match call
    case New(last) => NewConserves(s, last, eoc);
    case Grow(m, last) =>
      if m < |s.chains| {
        GrowConserves(s, m, last, eoc);
      }
    case Drop(m) =>
      if m < |s.chains| {
        DropConserves(s, m, eoc);
      }
  }

  function Run(s: State, calls: seq<Call>, eoc: nat): (r: State)
    requires |s.table| >= 3
    ensures |r.table| == |s.table|
    decreases |calls|
  {
    if calls == [] then s else Run(Step(s, calls[0], eoc), calls[1..], eoc)
  }

  /**
   * Over any run, live chains stay acyclic and disjoint, and free clusters plus chained clusters keep
   * their number; a volume that starts with no lost cluster never loses one.
   */
  lemma {:induction false} RunConserves(s: State, calls: seq<Call>, eoc: nat)
    requires Sound(s) && eoc >= |s.table|
    ensures Conserves(s, Run(s, calls, eoc))
    ensures UsedCount(s.table) == Total(s.chains) ==>
      UsedCount(Run(s, calls, eoc).table) == Total(Run(s, calls, eoc).chains)
    decreases |calls|
  {
    if calls != [] {
      StepConserves(s, calls[0], eoc);
      RunConserves(Step(s, calls[0], eoc), calls[1..], eoc);
    }
  }
}
