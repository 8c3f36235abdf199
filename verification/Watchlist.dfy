/** The watchlist both sides hold, the mutations that change it, and their wire form. */
module WatchlistLog {
  import opened Bytes

  const MAX_ADDRS := 6144
  const MAX_QUERY := 512

  /** The bytes from the start of the receive buffer on. */
  type Buffer = nat -> byte

  function U16(b: Buffer, i: nat): (v: nat)
    ensures v < 0x1_0000
  {
    b(i) * 0x100 + b(i + 1)
  }

  function Word(b: Buffer, i: nat): (v: u32) { U16(b, i) * 0x1_0000 + U16(b, i + 2) }

  /** n bytes from offset i on. */
  function Octets(b: Buffer, i: nat, n: nat): (s: seq<byte>)
    ensures |s| == n
  {
    if n == 0 then [] else Octets(b, i, n - 1) + [b(i + n - 1)]
  }

  lemma {:induction false} OctetsAt(b: Buffer, i: nat, n: nat, k: nat)
    requires k < n
    ensures Octets(b, i, n)[k] == b(i + k)
  {
    if k < n - 1 {
      OctetsAt(b, i, n - 1, k);
    }
  }

  /** Numbers of two and four bytes are big-endian. */
  lemma {:induction false} FieldsAreBig(b: Buffer, i: nat)
    ensures U16(b, i) == BigEndian(Octets(b, i, 2))
    ensures Word(b, i) == BigEndian(Octets(b, i, 4))
  {
    OctetsAt(b, i, 2, 0);
    OctetsAt(b, i, 2, 1);
    BigPair(Octets(b, i, 2));
    OctetsAt(b, i, 4, 0);
    OctetsAt(b, i, 4, 1);
    OctetsAt(b, i, 4, 2);
    OctetsAt(b, i, 4, 3);
    BigWord(Octets(b, i, 4));
  }

  /** Address number k of a message, at its place. */
  lemma {:induction false} AddressIsBig(b: Buffer, i: nat, n: nat, k: nat, at: nat)
    requires k < n && at == i + 4 * k
    ensures Words(b, i, n)[k] == BigEndian(Octets(b, at, 4))
  {
    WordsAt(b, i, n, k);
    FieldsAreBig(b, at);
  }

  /** Index number k, at its place. */
  lemma {:induction false} IndexIsBig(b: Buffer, i: nat, n: nat, k: nat, at: nat)
    requires k < n && at == i + 2 * k
    ensures Indices(b, i, n)[k] == BigEndian(Octets(b, at, 2))
  {
    IndicesAt(b, i, n, k);
    FieldsAreBig(b, at);
  }

  /** n addresses from offset i on. */
  function Words(b: Buffer, i: nat, n: nat): (r: seq<u32>)
    ensures |r| == n
  {
    if n == 0 then [] else Words(b, i, n - 1) + [Word(b, i + 4 * (n - 1))]
  }

  function Indices(b: Buffer, i: nat, n: nat): (r: seq<nat>)
    ensures |r| == n
  {
    if n == 0 then [] else Indices(b, i, n - 1) + [U16(b, i + 2 * (n - 1))]
  }

  lemma {:induction false} WordsAt(b: Buffer, i: nat, n: nat, k: nat)
    requires k < n
    ensures Words(b, i, n)[k] == Word(b, i + 4 * k)
  {
    if k < n - 1 {
      WordsAt(b, i, n - 1, k);
    }
  }

  lemma {:induction false} IndicesAt(b: Buffer, i: nat, n: nat, k: nat)
    requires k < n
    ensures Indices(b, i, n)[k] == U16(b, i + 2 * k)
  {
    if k < n - 1 {
      IndicesAt(b, i, n - 1, k);
    }
  }

  /** The compaction cursor after i entries: how many of the named indices were met, in order. */
  function Cursor(idx: seq<nat>, i: nat): (c: nat)
    ensures c <= |idx| && c <= i
  {
    if i == 0 then 0
    else
      var c := Cursor(idx, i - 1);
      if c < |idx| && idx[c] == i - 1 then c + 1 else c
  }

  predicate Met(idx: seq<nat>, i: nat) { Cursor(idx, i) < |idx| && idx[Cursor(idx, i)] == i }

  /** What the compaction keeps of the first i entries. */
  function Kept(list: seq<u32>, idx: seq<nat>, i: nat): (r: seq<u32>)
    requires i <= |list|
    ensures |r| == i - Cursor(idx, i)
  {
    if i == 0 then [] else Kept(list, idx, i - 1) + if Met(idx, i - 1) then [] else [list[i - 1]]
  }

  /** The entries whose index is not named, in order. */
  function Without(list: seq<u32>, idx: seq<nat>, i: nat): (r: seq<u32>)
    requires i <= |list|
  {
    if i == 0 then [] else Without(list, idx, i - 1) + if i - 1 in idx then [] else [list[i - 1]]
  }

  predicate Ascending(idx: seq<nat>) { forall i, j :: 0 <= i < j < |idx| ==> idx[i] < idx[j] }

  /** The cursor of an ascending list stands behind exactly the indices below i. */
  lemma {:induction false} CursorSplits(idx: seq<nat>, i: nat)
    requires Ascending(idx)
    ensures forall k :: 0 <= k < Cursor(idx, i) ==> idx[k] < i
    ensures forall k :: Cursor(idx, i) <= k < |idx| ==> idx[k] >= i
  {
    if i > 0 {
      CursorSplits(idx, i - 1);
    }
  }

  /** One pass over an ascending list removes exactly the named indices and keeps the order of the others. */
  lemma {:induction false} KeptIsWithout(list: seq<u32>, idx: seq<nat>, i: nat)
    requires Ascending(idx) && i <= |list|
    ensures Kept(list, idx, i) == Without(list, idx, i)
  {
    if i > 0 {
      KeptIsWithout(list, idx, i - 1);
      CursorSplits(idx, i - 1);
    }
  }

  lemma {:induction false} AllMet(idx: seq<nat>, n: nat)
    requires Ascending(idx) && forall k :: 0 <= k < |idx| ==> idx[k] < n
    ensures Cursor(idx, n) == |idx|
  {
    CursorSplits(idx, n);
    assert Cursor(idx, n) < |idx| ==> idx[Cursor(idx, n)] >= n;
  }

  datatype Mutation = Append(addrs: seq<u32>) | Remove(idx: seq<nat>)

  /** What the sender may log: a change that fits the list. */
  predicate Applicable(list: seq<u32>, m: Mutation) {
    match m
    case Append(addrs) => 0 < |addrs| && |list| + |addrs| <= MAX_ADDRS
    case Remove(idx) => 0 < |idx| && Ascending(idx) && forall k :: 0 <= k < |idx| ==> idx[k] < |list|
  }

  function Apply(list: seq<u32>, m: Mutation): (r: seq<u32>) {
    match m
    case Append(addrs) => list + addrs
    case Remove(idx) => Without(list, idx, |list|)
  }

  /** The list after the first k mutations of the log. */
  function Fold(start: seq<u32>, log: seq<Mutation>, k: nat): (r: seq<u32>)
    requires k <= |log|
  {
    if k == 0 then start else Apply(Fold(start, log, k - 1), log[k - 1])
  }

  predicate Sendable(start: seq<u32>, log: seq<Mutation>) {
    |start| <= MAX_ADDRS && forall k :: 0 <= k < |log| ==> Applicable(Fold(start, log, k), log[k])
  }

  /** An ascending list of indices below n has at most n of them. */
  lemma {:induction false} AscendingFits(idx: seq<nat>, n: nat)
    requires Ascending(idx) && forall k :: 0 <= k < |idx| ==> idx[k] < n
    ensures |idx| <= n
  {
    AllMet(idx, n);
  }

  lemma {:induction false} ApplyFits(list: seq<u32>, m: Mutation)
    requires |list| <= MAX_ADDRS && Applicable(list, m)
    ensures |Apply(list, m)| <= MAX_ADDRS
    ensures m.Remove? ==> |Apply(list, m)| + |m.idx| == |list|
  {
    if m.Remove? {
      KeptIsWithout(list, m.idx, |list|);
      AllMet(m.idx, |list|);
    }
  }

  lemma {:induction false} FoldFits(start: seq<u32>, log: seq<Mutation>, k: nat)
    requires Sendable(start, log) && k <= |log|
    ensures |Fold(start, log, k)| <= MAX_ADDRS
  {
    if k > 0 {
      FoldFits(start, log, k - 1);
      ApplyFits(Fold(start, log, k - 1), log[k - 1]);
    }
  }
}

/** The receiver: what one response does to its state. */
module WatchlistReplica {
  import opened Bytes
  import opened WatchlistLog

  const MAGIC := 0xAE
  const EVT_ACHIEVEMENT := 1
  const EVT_UPDATE := 2
  const EVT_QUERY := 0x0A
  const EVT_APPEND := 0x0B
  const EVT_REMOVE_IDX := 0x0E

  datatype State = State(list: seq<u32>, seqno: nat, query: seq<u32>, resync: bool, resyncSeq: nat, celebrate: nat)

  /** Sequence numbers have 16 bits. */
  function Wrap(k: nat): (r: nat)
    decreases k
  {
    if k < 0x1_0000 then k else Wrap(k - 0x1_0000)
  }

  lemma {:induction false} WrapIs(k: nat)
    ensures Wrap(k) == k % 0x1_0000
    decreases k
  {
    if k >= 0x1_0000 {
      WrapIs(k - 0x1_0000);
    }
  }

  function Queried(s: State, b: Buffer): (r: State) {
    var n := U16(b, 6);
    if 0 < n <= MAX_QUERY then
      var addrs := Words(b, 8, n);
      s.(query := addrs, list := if |s.list| + n <= MAX_ADDRS then s.list + addrs else s.list)
    else s
  }

  function Appended(s: State, b: Buffer): (r: State) {
    var n := U16(b, 8);
    if U16(b, 6) == Wrap(s.seqno + 1) && 0 < n && |s.list| + n <= MAX_ADDRS then
      s.(list := s.list + Words(b, 10, n), seqno := U16(b, 6))
    else s
  }

  function Removed(s: State, b: Buffer): (r: State) {
    var n := U16(b, 8);
    if U16(b, 6) == Wrap(s.seqno + 1) && 0 < n <= |s.list| then
      s.(list := Kept(s.list, Indices(b, 10, n), |s.list|), seqno := U16(b, 6))
    else s
  }

  /** ra_parse_response, branch by branch. */
  function Parsed(s: State, b: Buffer): (r: State) {
    if b(0) != MAGIC then s
    else if b(2) == EVT_QUERY then Queried(s, b)
    else if b(2) == EVT_APPEND then Appended(s, b)
    else if b(2) == EVT_REMOVE_IDX then Removed(s, b)
    else if b(2) == EVT_UPDATE then s.(resync := true, resyncSeq := U16(b, 10))
    else if b(2) == EVT_ACHIEVEMENT then s.(celebrate := 54)
    else s
  }

  /** The number in the bytes of a message: n of them from offset i on. */
  function Number(b: Buffer, i: nat, n: nat): (v: nat) { BigEndian(Octets(b, i, n)) }

  /** The event a response carries; none without the magic byte. */
  function EventOf(b: Buffer): (e: nat) { if b(0) == 0xAE then b(2) else 0 }

  /**
   * What a response does besides changing the list: a query keeps its addresses, an update announces a resync and its
   * number, an achievement starts the celebration, and nothing else touches these.
   */
  lemma {:induction false} ParsedElse(s: State, b: Buffer)
    ensures var r := Parsed(s, b);
            && (if EventOf(b) == 2 then r.resync && r.resyncSeq == Number(b, 10, 2)
                else r.resync == s.resync && r.resyncSeq == s.resyncSeq)
            && (if EventOf(b) == 10 && 0 < Number(b, 6, 2) <= 512
                then |r.query| == Number(b, 6, 2) else r.query == s.query)
            && r.celebrate == (if EventOf(b) == 1 then 54 else s.celebrate)
    ensures EventOf(b) == 2 || EventOf(b) == 1 ==> Parsed(s, b).list == s.list && Parsed(s, b).seqno == s.seqno
  {
    FieldsAreBig(b, 6);
    FieldsAreBig(b, 10);
  }

  /** The message says these numbers of w bytes each, one behind the other from offset i on. */
  ghost predicate Lists(b: Buffer, i: nat, w: nat, s: seq<nat>) {
    forall k, at {:trigger Number(b, at, w), s[k]} :: 0 <= k < |s| && at == i + w * k ==> Number(b, at, w) == s[k]
  }

  lemma {:induction false} ListsAddresses(b: Buffer, i: nat, addrs: seq<u32>)
    requires Words(b, i, |addrs|) == addrs
    ensures Lists(b, i, 4, addrs)
  {
    forall k, at: nat {:trigger Number(b, at, 4), addrs[k]} | 0 <= k < |addrs| && at == i + 4 * k
      ensures Number(b, at, 4) == addrs[k]
    {
      AddressIsBig(b, i, |addrs|, k, at);
    }
  }

  lemma {:induction false} ListsIndices(b: Buffer, i: nat, idx: seq<nat>)
    requires Indices(b, i, |idx|) == idx
    ensures Lists(b, i, 2, idx)
  {
    forall k, at: nat {:trigger Number(b, at, 2), idx[k]} | 0 <= k < |idx| && at == i + 2 * k
      ensures Number(b, at, 2) == idx[k]
    {
      IndexIsBig(b, i, |idx|, k, at);
    }
  }

  /** The bytes of an append: event, number, how many addresses, and these. */
  lemma {:induction false} AppendBytes(b: Buffer, addrs: seq<u32>, j: nat)
    requires Carries(b, Append(addrs), j)
    ensures EventOf(b) == 11 && Number(b, 6, 2) == j % 0x1_0000 && Number(b, 8, 2) == |addrs| && Lists(b, 10, 4, addrs)
  {
    WrapIs(j);
    FieldsAreBig(b, 6);
    FieldsAreBig(b, 8);
    ListsAddresses(b, 10, addrs);
  }

  /** Those of a removal. */
  lemma {:induction false} RemoveBytes(b: Buffer, idx: seq<nat>, j: nat)
    requires Carries(b, Remove(idx), j)
    ensures EventOf(b) == 14 && Number(b, 6, 2) == j % 0x1_0000 && Number(b, 8, 2) == |idx| && Lists(b, 10, 2, idx)
  {
    WrapIs(j);
    FieldsAreBig(b, 6);
    FieldsAreBig(b, 8);
    ListsIndices(b, 10, idx);
  }

  /** And those of a query. */
  lemma {:induction false} QueryBytes(b: Buffer, addrs: seq<u32>)
    requires AsksFor(b, addrs)
    ensures EventOf(b) == 10 && Number(b, 6, 2) == |addrs| && Lists(b, 8, 4, addrs)
  {
    FieldsAreBig(b, 6);
    ListsAddresses(b, 8, addrs);
  }

  /** The response carries mutation number j of the log. */
  predicate Carries(b: Buffer, m: Mutation, j: nat) {
    && b(0) == MAGIC
    && U16(b, 6) == Wrap(j)
    && match m
       case Append(addrs) => b(2) == EVT_APPEND && U16(b, 8) == |addrs| && Words(b, 10, |addrs|) == addrs
       case Remove(idx) => b(2) == EVT_REMOVE_IDX && U16(b, 8) == |idx| && Indices(b, 10, |idx|) == idx
  }

  /** The response asks for these addresses, which both sides add to their lists. */
  predicate AsksFor(b: Buffer, addrs: seq<u32>) {
    && b(0) == MAGIC && b(2) == EVT_QUERY
    && U16(b, 6) == |addrs| && 0 < |addrs| <= MAX_QUERY && Words(b, 8, |addrs|) == addrs
  }

  /** The response leaves list and sequence number alone. */
  predicate Idle(b: Buffer) {
    b(0) == MAGIC ==>
      b(2) != EVT_APPEND && b(2) != EVT_REMOVE_IDX && (b(2) == EVT_QUERY ==> !(0 < U16(b, 6) <= MAX_QUERY))
  }

  /** A delivery: mutation number j of the log, old, new or premature; a query; or a response about something else. */
  datatype Delivery = Mutating(buffer: Buffer, number: nat) | Asking(buffer: Buffer,
    addrs: seq<u32>) | Other(buffer: Buffer)

  /** What a list has been through: mutations in order, and queries between them. */
  datatype Entry = Changed(m: Mutation) | Asked(addrs: seq<u32>)

  function Grown(list: seq<u32>, addrs: seq<u32>): (r: seq<u32>) {
    if |list| + |addrs| <= MAX_ADDRS then list + addrs else list
  }

  /** The list after a history. */
  function Play(start: seq<u32>, h: seq<Entry>): (r: seq<u32>) {
    if h == [] then start
    else
      var list := Play(start, h[..|h| - 1]);
      match h[|h| - 1]
      case Changed(m) => Apply(list, m)
      case Asked(addrs) => Grown(list, addrs)
  }

  /** The mutations of a history. */
  function Changes(h: seq<Entry>): (r: seq<Mutation>) {
    if h == [] then []
    else Changes(h[..|h| - 1]) + match h[|h| - 1] case Changed(m) => [m] case Asked(_) => []
  }

  lemma {:induction false} PlaySnoc(start: seq<u32>, h: seq<Entry>, e: Entry)
    ensures Play(start, h + [e]) == match e case Changed(m) => Apply(Play(start, h),
      m) case Asked(addrs) => Grown(Play(start, h), addrs)
    ensures Changes(h + [e]) == Changes(h) + match e case Changed(m) => [m] case Asked(_) => []
  {
    assert (h + [e])[..|h|] == h;
  }

  /** A history without queries is a fold of the log. */
  lemma {:induction false} PlayIsFold(start: seq<u32>, log: seq<Mutation>, h: seq<Entry>)
    requires |h| <= |log| && forall i :: 0 <= i < |h| ==> h[i] == Changed(log[i])
    ensures Play(start, h) == Fold(start, log, |h|)
  {
    if h != [] {
      PlayIsFold(start, log, h[..|h| - 1]);
    }
  }

  /** The history after a delivery: a mutation joins it when it is next in number, a query always. */
  function Extended(h: seq<Entry>, d: Delivery, log: seq<Mutation>): (r: seq<Entry>)
    requires d.Mutating? ==> 0 < d.number <= |log|
  {
    match d
    case Mutating(_, j) => if j == |Changes(h)| + 1 then h + [Changed(log[j - 1])] else h
    case Asking(_, addrs) => h + [Asked(addrs)]
    case Other(_) => h
  }

  /**
   * What may arrive after a history: a mutation that is next in number fits the list, as it was made for it;
   * older or younger by 65536 or more does not occur. The sender counts from `base`.
   */
  predicate Possible(d: Delivery, start: seq<u32>, base: nat, log: seq<Mutation>, h: seq<Entry>) {
    match d
    case Mutating(b, j) =>
      && 0 < j <= |log| && Carries(b, log[j - 1], base + j)
      && j < |Changes(h)| + 1 + 0x1_0000 && |Changes(h)| + 1 < j + 0x1_0000
      && (j == |Changes(h)| + 1 ==> Applicable(Play(start, h), log[j - 1]))
    case Asking(b, addrs) => AsksFor(b, addrs)
    case Other(b) => Idle(b)
  }

  /**
   * The replica is what its history makes of the start: the log as far as its sequence number says, and the queries.
   */
  predicate Replica(s: State, start: seq<u32>, base: nat, log: seq<Mutation>, h: seq<Entry>) {
    && s.list == Play(start, h) && |s.list| <= MAX_ADDRS
    && Changes(h) <= log && s.seqno == Wrap(base + |Changes(h)|)
  }

  predicate NextNumber(j: nat, seqno: nat) { Wrap(j) == Wrap(seqno + 1) }

  lemma {:induction false} SameNumber(j: nat, k: nat)
    requires j < k + 1 + 0x1_0000 && k + 1 < j + 0x1_0000
    ensures NextNumber(j, Wrap(k)) <==> j == k + 1
  {
    WrapIs(j);
    WrapIs(k);
    WrapIs(k % 0x1_0000 + 1);
  }

  lemma {:induction false} AppendApplies(s: State, b: Buffer, addrs: seq<u32>, j: nat)
    requires Carries(b, Append(addrs), j) && Applicable(s.list, Append(addrs)) && NextNumber(j, s.seqno)
    ensures Parsed(s, b) == s.(list := s.list + addrs, seqno := Wrap(j))
  {
  }

  lemma {:induction false} RemoveApplies(s: State, b: Buffer, idx: seq<nat>, j: nat)
    requires Carries(b, Remove(idx), j) && Applicable(s.list, Remove(idx)) && NextNumber(j, s.seqno)
    ensures Parsed(s, b) == s.(list := Without(s.list, idx, |s.list|), seqno := Wrap(j))
  {
    AscendingFits(idx, |s.list|);
    KeptIsWithout(s.list, idx, |s.list|);
  }

  lemma {:induction false} OutOfSequence(s: State, b: Buffer, m: Mutation, j: nat)
    requires Carries(b, m, j) && !NextNumber(j, s.seqno)
    ensures Parsed(s, b) == s
  {
  }

  lemma {:induction false} IdleKeeps(s: State, b: Buffer)
    requires Idle(b)
    ensures Parsed(s, b).list == s.list && Parsed(s, b).seqno == s.seqno
  {
  }

  /** A query is kept for the answer, and the list grows if there is room. */
  lemma {:induction false} AskingGrows(s: State, b: Buffer, addrs: seq<u32>)
    requires AsksFor(b, addrs)
    ensures Parsed(s, b) == s.(query := addrs, list := Grown(s.list, addrs))
  {
  }

  /** The mutation that is next in sequence. */
  lemma {:induction false} NextApplies(s: State, b: Buffer, m: Mutation, j: nat)
    requires Carries(b, m, j) && Applicable(s.list, m) && NextNumber(j, s.seqno)
    ensures Parsed(s, b).list == Apply(s.list, m) && Parsed(s, b).seqno == Wrap(j)
  {
    if m.Append? {
      AppendApplies(s, b, m.addrs, j);
    } else {
      RemoveApplies(s, b, m.idx, j);
    }
  }

  lemma {:induction false} MutationKeeps(s: State, start: seq<u32>, base: nat, log: seq<Mutation>, h: seq<Entry>,
                                         b: Buffer, j: nat)
    requires Replica(s, start, base, log, h) && Possible(Mutating(b, j), start, base, log, h)
    ensures Replica(Parsed(s, b), start, base, log, Extended(h, Mutating(b, j), log))
  {
    SameNumber(base + j, base + |Changes(h)|);
    if j == |Changes(h)| + 1 {
      NextApplies(s, b, log[j - 1], base + j);
      ApplyFits(s.list, log[j - 1]);
      PlaySnoc(start, h, Changed(log[j - 1]));
    } else {
      OutOfSequence(s, b, log[j - 1], base + j);
    }
  }

  /** One delivery keeps the replica what its history says: the next mutation is applied, every other one dropped. */
  lemma {:induction false} DeliveryKeeps(s: State, start: seq<u32>, base: nat, log: seq<Mutation>, h: seq<Entry>,
                                         d: Delivery)
    requires Replica(s, start, base, log, h) && Possible(d, start, base, log, h)
    ensures Replica(Parsed(s, d.buffer), start, base, log, Extended(h, d, log))
  {
    match d
    case Mutating(b, j) => MutationKeeps(s, start, base, log, h, b, j);
    case Asking(b, addrs) =>
      AskingGrows(s, b, addrs);
      PlaySnoc(start, h, Asked(addrs));
    case Other(b) => IdleKeeps(s, b);
  }

  function Deliver(s: State, ds: seq<Delivery>): (r: State) {
    if ds == [] then s else Parsed(Deliver(s, ds[..|ds| - 1]), ds[|ds| - 1].buffer)
  }

  predicate Numbered(ds: seq<Delivery>, log: seq<Mutation>) {
    forall i :: 0 <= i < |ds| ==> (ds[i].Mutating? ==> 0 < ds[i].number <= |log|)
  }

  /** The history of a run of deliveries. */
  function History(ds: seq<Delivery>, log: seq<Mutation>): (h: seq<Entry>)
    requires Numbered(ds, log)
  {
    if ds == [] then [] else Extended(History(ds[..|ds| - 1], log), ds[|ds| - 1], log)
  }

  predicate PossibleRun(ds: seq<Delivery>, start: seq<u32>, base: nat, log: seq<Mutation>)
    requires Numbered(ds, log)
  {
    ds == [] ||
    (PossibleRun(ds[..|ds| - 1], start, base, log) && Possible(ds[|ds| - 1], start, base, log,
      History(ds[..|ds| - 1], log)))
  }

  /**
   * Whatever is lost, repeated or reordered, list and sequence number name the same point of the log: the list
   * is the log up to that number, with the queries where they came.
   */
  lemma {:induction false} RunKeeps(s: State, start: seq<u32>, base: nat, log: seq<Mutation>, ds: seq<Delivery>)
    requires Replica(s, start, base, log, []) && Numbered(ds, log) && PossibleRun(ds, start, base, log)
    ensures Replica(Deliver(s, ds), start, base, log, History(ds, log))
  {
    if ds != [] {
      var rest := ds[..|ds| - 1];
      RunKeeps(s, start, base, log, rest);
      DeliveryKeeps(Deliver(s, rest), start, base, log, History(rest, log), ds[|ds| - 1]);
    }
  }

  class Watchlist {
    const list: array<u32>
    var count: nat
    var seqno: nat
    const query: array<u32>
    var queryCount: nat
    var resync: bool
    var resyncSeq: nat
    var celebrate: nat

    ghost predicate Valid()
      reads this
    {
      list.Length == MAX_ADDRS && query.Length ==
        MAX_QUERY && list != query && count <= MAX_ADDRS && queryCount <= MAX_QUERY && seqno < 0x1_0000
    }

    ghost function View(): (s: State)
      requires Valid()
      reads this, list, query
    {
      State(list[..count], seqno, query[..queryCount], resync, resyncSeq, celebrate)
    }

    constructor ()
      ensures Valid() && View() == State([], 0, [], false, 0, 0) && fresh(list) && fresh(query)
    {
      list := new u32[MAX_ADDRS](_ => 0);
      query := new u32[MAX_QUERY](_ => 0);
      count, seqno, queryCount, resync, resyncSeq, celebrate := 0, 0, 0, false, 0, 0;
    }

    /** ra_parse_response. */
    method Parse(b: Buffer)
      requires Valid()
      modifies this, list, query
      ensures Valid() && View() == Parsed(old(View()), b)
    {
      if b(0) == MAGIC {
        if b(2) == EVT_QUERY {
          TakeQuery(b);
        } else if b(2) == EVT_APPEND {
          TakeAppend(b);
        } else if b(2) == EVT_REMOVE_IDX {
          TakeRemove(b);
        } else if b(2) == EVT_UPDATE {
          resync, resyncSeq := true, U16(b, 10);
        } else if b(2) == EVT_ACHIEVEMENT {
          celebrate := 54;
        }
      }
    }

    /** The queried addresses, kept for the answer and appended to the list if there is room. */
    method TakeQuery(b: Buffer)
      requires Valid()
      modifies this`count, this`queryCount, list, query
      ensures Valid()
      ensures View() == Queried(old(View()), b)
    {
      var n := U16(b, 6);
      if 0 < n <= MAX_QUERY {
        StoreQuery(b, n);
        if count + n <= MAX_ADDRS {
          AppendAddrs(b, 8, n);
        }
      }
    }

    /** Applied only when it is next in sequence. */
    method TakeAppend(b: Buffer)
      requires Valid()
      modifies this`count, this`seqno, list
      ensures Valid()
      ensures View() == Appended(old(View()), b)
    {
      var number, n := U16(b, 6), U16(b, 8);
      WrapIs(seqno + 1);
      if number == (seqno + 1) % 0x1_0000 && n > 0 && count + n <= MAX_ADDRS {
        AppendAddrs(b, 10, n);
        seqno := number;
      }
    }

    method TakeRemove(b: Buffer)
      requires Valid()
      modifies this`count, this`seqno, list
      ensures Valid()
      ensures View() == Removed(old(View()), b)
    {
      var number, n := U16(b, 6), U16(b, 8);
      WrapIs(seqno + 1);
      if number == (seqno + 1) % 0x1_0000 && 0 < n <= count {
        Compact(b, n);
        seqno := number;
      }
    }

    method StoreQuery(b: Buffer, n: nat)
      requires Valid() && n <= MAX_QUERY
      modifies this`queryCount, query
      ensures Valid() && View() == old(View()).(query := Words(b, 8, n))
    {
      CopyWords(b, 8, n, query, 0);
      queryCount := n;
      assert query[..n] == query[0..n];
    }

    method AppendAddrs(b: Buffer, i: nat, n: nat)
      requires Valid() && count + n <= MAX_ADDRS
      modifies this`count, list
      ensures Valid() && View() == old(View()).(list := old(list[..count]) + Words(b, i, n))
    {
      CopyWords(b, i, n, list, count);
      count := count + n;
      assert list[..count] == list[..count - n] + list[count - n..count];
    }

    method CopyWords(b: Buffer, i: nat, n: nat, a: array<u32>, at: nat)
      requires at + n <= a.Length
      modifies a
      ensures a[at..at + n] == Words(b, i, n)
      ensures forall k :: 0 <= k < a.Length && (k < at || k >= at + n) ==> a[k] == old(a[k])
    {
      var j := 0;
      while j < n
        invariant j <= n && a[at..at + j] == Words(b, i, j)
        invariant forall k :: 0 <= k < a.Length && (k < at || k >= at + j) ==> a[k] == old(a[k])
      {
        a[at + j] := Word(b, i + 4 * j);
        SliceSnoc(a[..], at, at + j);
        j := j + 1;
      }
    }

    /** One pass in place: entries named by the n indices go, the others move up. */
    method Compact(b: Buffer, n: nat)
      requires Valid()
      modifies this`count, list
      ensures Valid() && View() == old(View()).(list := Kept(old(list[..count]), Indices(b, 10, n), old(count)))
    {
      var write := CompactArray(list, count, b, n);
      count := write;
    }
  }

  /** The pass has dealt with the first i of the entries that were there. */
  predicate Compacting(now: seq<u32>, was: seq<u32>, idx: seq<nat>, i: nat, skip: nat, write: nat) {
    && i <= |was| <= |now| && skip == Cursor(idx, i) && write == i - skip
    && now[..write] == Kept(was, idx, i)
    && now[i..|was|] == was[i..]
  }

  lemma {:induction false} Drops(now: seq<u32>, was: seq<u32>, idx: seq<nat>, i: nat, skip: nat, write: nat)
    requires Compacting(now, was, idx, i, skip, write) && i < |was| && Met(idx, i)
    ensures Compacting(now, was, idx, i + 1, skip + 1, write)
  {
    assert now[i + 1..|was|] == now[i..|was|][1..];
    assert was[i + 1..] == was[i..][1..];
  }

  lemma {:induction false} Moves(now: seq<u32>, was: seq<u32>, idx: seq<nat>, i: nat, skip: nat, write: nat)
    requires Compacting(now, was, idx, i, skip, write) && i < |was| && !Met(idx, i)
    ensures Compacting(now[write := now[i]], was, idx, i + 1, skip, write + 1)
  {
    var then' := now[write := now[i]];
    SliceSnoc(then', 0, write);
    assert then'[..write] == now[..write];
    assert now[i] == now[i..|was|][0] == was[i];
    assert then'[i + 1..|was|] == now[i..|was|][1..];
    assert was[i + 1..] == was[i..][1..];
  }

  method CompactArray(a: array<u32>, total: nat, b: Buffer, n: nat) returns (write: nat)
    requires total <= a.Length
    modifies a
    ensures write <= total && a[..write] == Kept(old(a[..total]), Indices(b, 10, n), total)
  {
    ghost var idx := Indices(b, 10, n);
    ghost var was := a[..total];
    var i: nat, skip: nat := 0, 0;
    write := 0;
    while i < total
      invariant i <= total && Compacting(a[..], was, idx, i, skip, write)
    {
      var gone := false;
      if skip < n {
        IndicesAt(b, 10, n, skip);
        gone := U16(b, 10 + 2 * skip) == i;
      }
      if gone {
        Drops(a[..], was, idx, i, skip, write);
        skip := skip + 1;
      } else {
        ghost var now := a[..];
        Moves(now, was, idx, i, skip, write);
        if write != i {
          a[write] := a[i];
        }
        assert a[..] == now[write := now[i]];
        write := write + 1;
      }
      i := i + 1;
    }
  }
}

/** How far into the receive buffer the parser reads. */
module WatchlistBounds {
  import opened Bytes
  import opened WatchlistLog
  import opened WatchlistReplica

  /** The size of the receive buffer, and how many indices of a removal fit it. */
  const RECEIVED := 2080
  const INDICES_RECEIVED := 1035

  predicate Agree(b: Buffer, c: Buffer) { forall i: nat :: i < RECEIVED ==> b(i) == c(i) }

  /** Only received bytes matter. */
  ghost predicate Determined(s: State, b: Buffer) { forall c :: Agree(b, c) ==> Parsed(s, c) == Parsed(s, b) }

  predicate InSequence(s: State, b: Buffer) { b(0) == MAGIC && U16(b, 6) == Wrap(s.seqno + 1) }

  predicate Appends(s: State, b: Buffer) {
    InSequence(s, b) && b(2) == EVT_APPEND && 0 < U16(b, 8) && |s.list| + U16(b, 8) <= MAX_ADDRS
  }

  predicate Removes(s: State, b: Buffer) { InSequence(s, b) && b(2) == EVT_REMOVE_IDX && 0 < U16(b, 8) <= |s.list| }

  /** Indices of a removal that are looked at: those met before the last entry of the list, and the one behind them. */
  function LookedAt(idx: seq<nat>, size: nat): (n: nat) {
    if size == 0 then 0
    else
      var met := Cursor(idx, size - 1);
      if met < |idx| then met + 1 else met
  }

  /** The parser stays inside the receive buffer. */
  predicate Stays(s: State, b: Buffer) {
    && (Appends(s, b) ==> 10 + 4 * U16(b, 8) <= RECEIVED)
    && (Removes(s, b) ==> 10 + 2 * LookedAt(Indices(b, 10, U16(b, 8)), |s.list|) <= RECEIVED)
  }

  lemma {:induction false} WordsAgree(b: Buffer, c: Buffer, i: nat, n: nat)
    requires Agree(b, c) && i + 4 * n <= RECEIVED
    ensures Words(b, i, n) == Words(c, i, n)
  {
    if n > 0 {
      WordsAgree(b, c, i, n - 1);
    }
  }

  /** As long as the cursor stays among the indices two lists share, it runs alike. */
  lemma {:induction false} CursorAlike(idx: seq<nat>, jdx: seq<nat>, list: seq<u32>, i: nat)
    requires |idx| == |jdx| && i <= |list| && (forall k :: 0 <= k < |idx| && k < INDICES_RECEIVED ==> idx[k] == jdx[k])
    requires LookedAt(idx, i) <= INDICES_RECEIVED
    ensures Cursor(idx, i) == Cursor(jdx, i) && Kept(list, idx, i) == Kept(list, jdx, i)
  {
    if i > 0 {
      LookedGrows(idx, i);
      CursorAlike(idx, jdx, list, i - 1);
    }
  }

  lemma {:induction false} LookedGrows(idx: seq<nat>, i: nat)
    requires i > 0
    ensures LookedAt(idx, i - 1) <= LookedAt(idx, i)
  {
  }

  lemma {:induction false} IndicesAlike(b: Buffer, c: Buffer, n: nat, k: nat)
    requires Agree(b, c) && k < n && k < INDICES_RECEIVED
    ensures Indices(b, 10, n)[k] == Indices(c, 10, n)[k]
  {
    IndicesAt(b, 10, n, k);
    IndicesAt(c, 10, n, k);
  }

  lemma {:induction false} QueryDetermined(s: State, b: Buffer, c: Buffer)
    requires Agree(b, c)
    ensures Queried(s, c) == Queried(s, b)
  {
    if 0 < U16(b, 6) <= MAX_QUERY {
      WordsAgree(b, c, 8, U16(b, 6));
    }
  }

  lemma {:induction false} AppendDetermined(s: State, b: Buffer, c: Buffer)
    requires Agree(b, c)
    requires (U16(b, 6) == Wrap(s.seqno + 1) && 0 < U16(b, 8) && |s.list| + U16(b, 8) <= MAX_ADDRS ==>
      10 + 4 * U16(b, 8) <= RECEIVED)
    ensures Appended(s, c) == Appended(s, b)
  {
    assert U16(c, 6) == U16(b, 6) && U16(c, 8) == U16(b, 8);
    if 10 + 4 * U16(b, 8) <= RECEIVED {
      WordsAgree(b, c, 10, U16(b, 8));
    }
  }

  lemma {:induction false} RemoveDetermined(s: State, b: Buffer, c: Buffer)
    requires Agree(b, c)
    requires 0 < U16(b, 8) <= |s.list| && U16(b, 6) == Wrap(s.seqno + 1) ==>
      LookedAt(Indices(b, 10, U16(b, 8)), |s.list|) <= INDICES_RECEIVED
    ensures Removed(s, c) == Removed(s, b)
  {
    assert U16(c, 6) == U16(b, 6) && U16(c, 8) == U16(b, 8);
    if 0 < U16(b, 8) <= |s.list| && U16(b, 6) == Wrap(s.seqno + 1) {
      var n := U16(b, 8);
      forall k | 0 <= k < n && k < INDICES_RECEIVED
        ensures Indices(b, 10, n)[k] == Indices(c, 10, n)[k]
      {
        IndicesAlike(b, c, n, k);
      }
      CursorAlike(Indices(b, 10, n), Indices(c, 10, n), s.list, |s.list|);
    }
  }

  /** A parser that stays inside the buffer depends on nothing else. */
  lemma {:induction false} StaysDetermines(s: State, b: Buffer, c: Buffer)
    requires Stays(s, b) && Agree(b, c)
    ensures Parsed(s, c) == Parsed(s, b)
  {
    assert b(0) == c(0) && b(2) == c(2);
    if b(0) == MAGIC {
      if b(2) == EVT_QUERY {
        QueryDetermined(s, b, c);
      } else if b(2) == EVT_APPEND {
        AppendDetermined(s, b, c);
      } else if b(2) == EVT_REMOVE_IDX {
        RemoveDetermined(s, b, c);
      }
    }
  }

  /** The buffer with other bytes behind its end. */
  function Other(b: Buffer): (c: Buffer) { (i: nat) => if i < RECEIVED then b(i) else (b(i) + 1) % 256 }

  lemma {:induction false} OtherWord(b: Buffer)
    ensures Word(Other(b), 2078) != Word(b, 2078)
  {
    var c := Other(b);
    assert c(2078) == b(2078) && c(2079) == b(2079) && c(2080) != b(2080);
    assert U16(c, 2080) != U16(b, 2080);
  }

  lemma {:induction false} OtherAgrees(b: Buffer)
    ensures Agree(b, Other(b)) && U16(Other(b), 6) == U16(b, 6) && U16(Other(b), 8) == U16(b, 8)
  {
  }

  lemma {:induction false} LongAppend(s: State, b: Buffer)
    requires Appends(s, b) && 10 + 4 * U16(b, 8) > RECEIVED
    ensures Agree(b, Other(b)) && Parsed(s, Other(b)) != Parsed(s, b)
  {
    var c, n := Other(b), U16(b, 8);
    OtherAgrees(b);
    OtherWord(b);
    WordsAt(b, 10, n, 517);
    WordsAt(c, 10, n, 517);
    assert Parsed(s, b).list == s.list + Words(b, 10, n) && Parsed(s, c).list == s.list + Words(c, 10, n);
    assert (s.list + Words(b, 10, n))[|s.list| + 517] == Words(b, 10, n)[517];
    assert (s.list + Words(c, 10, n))[|s.list| + 517] == Words(c, 10, n)[517];
  }

  /** The buffer with index number 1035, the first one behind its end, set to v. */
  function Naming(b: Buffer, v: nat): (c: Buffer)
    requires v < 0x1_0000
  {
    (i: nat) => if i < RECEIVED then b(i) else if i == RECEIVED then v / 256 else if i == RECEIVED + 1
      then v % 256 else 255
  }

  /** Where the pass first looks at an index behind the buffer. */
  lemma {:induction false} FirstBeyond(idx: seq<nat>, n: nat) returns (i: nat)
    requires Cursor(idx, n) >= INDICES_RECEIVED
    ensures i <= n && Cursor(idx, i) == INDICES_RECEIVED && LookedAt(idx, i) <= INDICES_RECEIVED
  {
    i := n;
    while Cursor(idx, i - 1) >= INDICES_RECEIVED
      invariant 0 < i <= n && Cursor(idx, i) >= INDICES_RECEIVED
      decreases i
    {
      i := i - 1;
    }
  }

  lemma {:induction false} CursorMono(idx: seq<nat>, i: nat, k: nat)
    requires i <= k
    ensures Cursor(idx, i) <= Cursor(idx, k)
  {
    if i < k {
      CursorMono(idx, i, k - 1);
    }
  }

  lemma {:induction false} CursorStays(idx: seq<nat>, i: nat, k: nat)
    requires i <= k && Cursor(idx, i) < |idx| && idx[Cursor(idx, i)] >= k
    ensures Cursor(idx, k) == Cursor(idx, i)
  {
    if i < k {
      CursorStays(idx, i, k - 1);
    }
  }

  /** The indices of a buffer with an index of our choice behind its end. */
  lemma {:induction false} NamingIndices(b: Buffer, v: nat, n: nat)
    requires v < 0x1_0000 && n > INDICES_RECEIVED
    ensures Agree(b, Naming(b, v)) && U16(Naming(b, v), 8) == U16(b, 8) && U16(Naming(b, v), 6) == U16(b, 6)
    ensures var idx := Indices(Naming(b, v), 10, n);
            idx[INDICES_RECEIVED] == v && forall k :: 0 <= k < INDICES_RECEIVED ==> idx[k] == Indices(b, 10, n)[k]
  {
    var c := Naming(b, v);
    IndicesAt(c, 10, n, INDICES_RECEIVED);
    forall k | 0 <= k < INDICES_RECEIVED
      ensures Indices(c, 10, n)[k] == Indices(b, 10, n)[k]
    {
      IndicesAlike(b, c, n, k);
    }
  }

  /** One more index names an entry in the first list and none in the second. */
  lemma {:induction false} LengthsDiffer(idx: seq<nat>, jdx: seq<nat>, kdx: seq<nat>, list: seq<u32>, i: nat)
    requires |idx| == |jdx| == |kdx| && |idx| > INDICES_RECEIVED && i < |list| <= MAX_ADDRS
    requires forall k :: 0 <= k < INDICES_RECEIVED ==> jdx[k] == idx[k] && kdx[k] == idx[k]
    requires Cursor(idx, i) == INDICES_RECEIVED && LookedAt(idx, i) <= INDICES_RECEIVED
    requires jdx[INDICES_RECEIVED] == i && kdx[INDICES_RECEIVED] == 0xFFFF
    ensures |Kept(list, jdx, |list|)| < |Kept(list, kdx, |list|)|
  {
    CursorAlike(idx, jdx, list, i);
    CursorAlike(idx, kdx, list, i);
    CursorMono(jdx, i + 1, |list|);
    CursorStays(kdx, i, |list|);
  }

  lemma {:induction false} RemovedList(s: State, b: Buffer)
    requires Removes(s, b)
    ensures Parsed(s, b).list == Kept(s.list, Indices(b, 10, U16(b, 8)), |s.list|)
  {
  }

  /** Two removals that agree on the received indices but not on how much goes. */
  lemma {:induction false} LongRemove(s: State, b: Buffer)
    requires Removes(s, b) && 10 + 2 * LookedAt(Indices(b, 10, U16(b, 8)), |s.list|) > RECEIVED && |s.list| <= MAX_ADDRS
    ensures !Determined(s, b)
  {
    var n := U16(b, 8);
    var i := FirstBeyond(Indices(b, 10, n), |s.list| - 1);
    var c, d := Naming(b, i), Naming(b, 0xFFFF);
    NamingIndices(b, i, n);
    NamingIndices(b, 0xFFFF, n);
    LengthsDiffer(Indices(b, 10, n), Indices(c, 10, n), Indices(d, 10, n), s.list, i);
    assert c(0) == b(0) && c(2) == b(2) && d(0) == b(0) && d(2) == b(2);
    RemovedList(s, c);
    RemovedList(s, d);
    assert Agree(b, c) && Agree(b, d);
  }

  /** A response is parsed from received bytes alone exactly when the parser stays inside the receive buffer. */
  lemma {:induction false} ReceivedExactly(s: State, b: Buffer)
    requires |s.list| <= MAX_ADDRS
    ensures Determined(s, b) <==> Stays(s, b)
  {
    if Stays(s, b) {
      forall c | Agree(b, c)
        ensures Parsed(s, c) == Parsed(s, b)
      {
        StaysDetermines(s, b, c);
      }
    } else if Appends(s, b) {
      LongAppend(s, b);
    } else {
      LongRemove(s, b);
    }
  }

  /** The mutation numbered 1 of this kind and count; the indices of a removal are 0, 1, 2 and so on. */
  function Message(event: byte, count: nat): (b: Buffer)
    requires count < 0x1_0000
  {
    (i: nat) =>
      if i == 0 then MAGIC else if i == 2 then event else if i == 7 then 1
      else if i == 8 then count / 0x100 else if i == 9 then count % 0x100
      else if event != EVT_REMOVE_IDX || i < 10 then 0
      else IndexByte((i - 10) / 2, i % 2 == 0)
  }

  function IndexByte(k: nat, high: bool): (r: byte) { if high then k / 0x100 % 0x100 else k % 0x100 }

  lemma {:induction false} IndexBytes(k: nat)
    ensures (2 * k) / 2 == k && (2 * k + 1) / 2 == k && (10 + 2 * k) % 2 == 0 && (10 + 2 * k + 1) % 2 == 1
    ensures k < 0x1_0000 ==> IndexByte(k, true) * 0x100 + IndexByte(k, false) == k
  {
  }

  /** A list of this many entries, before the first mutation. */
  function Fresh(n: nat): (s: State) { State(seq(n, i => 0), 0, [], false, 0, 0) }

  lemma {:induction false} MessageIs(event: byte, count: nat)
    requires count < 0x1_0000
    ensures var b := Message(event, count);
            b(0) == MAGIC && b(2) == event && U16(b, 6) == 1 && U16(b, 8) == count
  {
  }

  /** An append of 518 addresses, one more than fit the buffer. */
  lemma {:induction false} TooManyAddresses()
    ensures Appends(Fresh(0), Message(EVT_APPEND, 518)) && !Determined(Fresh(0), Message(EVT_APPEND, 518))
  {
    MessageIs(EVT_APPEND, 518);
    ReceivedExactly(Fresh(0), Message(EVT_APPEND, 518));
  }

  lemma {:induction false} AllMet(idx: seq<nat>, i: nat)
    requires i <= |idx| && forall k :: 0 <= k < i ==> idx[k] == k
    ensures Cursor(idx, i) == i
  {
    if i > 0 {
      AllMet(idx, i - 1);
    }
  }

  lemma {:induction false} NextIndex(count: nat, k: nat)
    requires k < count < 0x1_0000
    ensures Indices(Message(EVT_REMOVE_IDX, count), 10, count)[k] == k
  {
    var b := Message(EVT_REMOVE_IDX, count);
    IndicesAt(b, 10, count, k);
    IndexBytes(k);
    var hi, lo := IndexByte(k, true), IndexByte(k, false);
    assert b(10 + 2 * k) == hi && b(10 + 2 * k + 1) == lo;
  }

  /** A removal of the first 1036 entries, one more than fit the buffer. */
  lemma {:induction false} TooManyIndices()
    ensures Removes(Fresh(1036), Message(EVT_REMOVE_IDX, 1036))
    ensures !Determined(Fresh(1036), Message(EVT_REMOVE_IDX, 1036))
  {
    var s, b := Fresh(1036), Message(EVT_REMOVE_IDX, 1036);
    var idx := Indices(b, 10, 1036);
    MessageIs(EVT_REMOVE_IDX, 1036);
    forall k | 0 <= k < 1035
      ensures idx[k] == k
    {
      NextIndex(1036, k);
    }
    AllMet(idx, 1035);
    ReceivedExactly(s, b);
  }
}
