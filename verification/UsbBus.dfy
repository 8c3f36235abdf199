/**
 * The wire below the USB link: transfers in flight, the adapter that answers
 * every request once and in order, and the messages the host's queue receives.
 */
module UsbBus {
  import opened Bytes

  /** Buffers by base address; two of them never overlap. */
  type Memory = map<nat, seq<byte>>

  datatype Read = Read(buf: nat, cap: nat)

  datatype Reply = Reply(number: nat, data: seq<byte>)

  /**
   * ins: reply transfers in flight; landed: whether the first one has its data; outs: request
   * transfers in flight; sending: the last request has not reached the adapter yet.
   *
   * The host numbers its requests: serial is the number of the last one, asked what each said, and
   * lost those that never reached the adapter. The adapter numbers the requests it gets: heard is
   * the number of the last one, origin the host's number of each, waiting those not answered yet,
   * answers what each answer said, unread the answers not read yet, taken how many were read.
   */
  datatype Bus = Bus(
    ins: seq<Read>, landed: bool, outs: nat, sending: bool,
    serial: nat, asked: map<nat, seq<byte>>, lost: seq<nat>,
    heard: nat, origin: map<nat, nat>, waiting: seq<nat>, answers: map<nat, seq<byte>>, unread: seq<Reply>, taken: nat)

  /**
   * What may happen next. Arrive: the request reaches the adapter. Answer: the adapter answers the
   * oldest request it has. Land: the oldest answer reaches the reply buffer. OutDone, InDone,
   * InFailed: completion records. Timer: a token, old or new.
   */
  datatype Event =
    | Arrive
    | Answer(data: seq<byte>)
    | Land
    | OutDone(res: int)
    | InDone
    | InFailed(res: int)
    | Timer(token: nat)

  datatype Message = Nothing | OutReply(res: int) | InReply(res: int) | Token(token: nat)

  /** The contents of a buffer; an address without one has none. */
  function At(mem: Memory, b: nat): (r: seq<byte>) { if b in mem then mem[b] else [] }

  /** `s` with its front replaced by `d`, as far as there is room. */
  function Overlay(s: seq<byte>, d: seq<byte>): (r: seq<byte>)
    ensures |r| == |s|
  {
    if |d| <= |s| then d + s[|d|..] else d[..|s|]
  }

  /** The new bytes in front, the old ones behind them. */
  lemma {:induction false} OverlayIs(s: seq<byte>, d: seq<byte>)
    ensures forall j :: 0 <= j < |s| ==> Overlay(s, d)[j] == if j < |d| then d[j] else s[j]
  {
  }

  /** The oldest answer fits the read that waits for one. */
  predicate CanLand(bus: Bus) {
    bus.ins != [] && !bus.landed && bus.unread != [] && |bus.unread[0].data| <= bus.ins[0].cap
  }

  function Arrived(bus: Bus): (r: Bus) {
    bus.(sending := false, heard := bus.heard + 1, origin := bus.origin[bus.heard + 1 := bus.serial],
         waiting := bus.waiting + [bus.heard + 1])
  }

  /** The request transfer ends: one that failed on its way is lost. */
  function SendEnds(bus: Bus, res: int): (r: Bus) {
    if !bus.sending then bus
    else if res < 0 then bus.(sending := false, lost := bus.lost + [bus.serial])
    else Arrived(bus)
  }

  /** The wire after an event; an event that cannot happen now changes nothing. A failed read takes no answer. */
  function After(e: Event, bus: Bus): (r: Bus) {
    match e
    case Arrive => if bus.sending then Arrived(bus) else bus
    case Answer(data) =>
      if bus.waiting != [] then
        bus.(waiting := bus.waiting[1..],
             unread := bus.unread + [Reply(bus.waiting[0], data)],
             answers := bus.answers[bus.waiting[0] := data])
      else bus
    case Land =>
      if CanLand(bus) then bus.(landed := true, taken := bus.taken + 1, unread := bus.unread[1..]) else bus
    case OutDone(res) =>
      if bus.outs > 0 then SendEnds(bus, res).(outs := bus.outs - 1) else bus
    case InDone =>
      if bus.ins != [] && bus.landed then bus.(ins := bus.ins[1..], landed := false) else bus
    case InFailed(res) =>
      if bus.ins != [] && !bus.landed && res < 0 then bus.(ins := bus.ins[1..]) else bus
    case Timer(_) => bus
  }

  function MemoryAfter(e: Event, bus: Bus, mem: Memory): (r: Memory) {
    if e.Land? && CanLand(bus) then
      mem[bus.ins[0].buf := Overlay(At(mem, bus.ins[0].buf), bus.unread[0].data)]
    else mem
  }

  /** Length of the answer read last. */
  function Got(bus: Bus): (n: nat) { if bus.taken in bus.answers then |bus.answers[bus.taken]| else 0 }

  /** The message the event leaves in the host's queue. */
  function MessageOf(e: Event, bus: Bus): (m: Message) {
    match e
    case OutDone(res) => if bus.outs > 0 then OutReply(res) else Nothing
    case InDone => if bus.ins != [] && bus.landed then InReply(Got(bus)) else Nothing
    case InFailed(res) => if bus.ins != [] && !bus.landed && res < 0 then InReply(res) else Nothing
    case Timer(t) => Token(t)
    case _ => Nothing
  }

  /** The answers to requests taken + 1, taken + 2, ... in this order. */
  predicate InOrder(unread: seq<Reply>, taken: nat, answers: map<nat, seq<byte>>) {
    forall i :: 0 <= i < |unread| ==> AnswerAt(unread[i], taken + 1 + i, answers)
  }

  predicate AnswerAt(r: Reply, k: nat, answers: map<nat, seq<byte>>) {
    r.number == k && k in answers && answers[k] == r.data
  }

  /** The requests behind number n, in order. */
  predicate Numbered(waiting: seq<nat>, n: nat) { forall i :: 0 <= i < |waiting| ==> waiting[i] == n + 1 + i }

  predicate NoneAfter(answers: map<nat, seq<byte>>, n: nat) { forall k :: k in answers ==> 1 <= k <= n }

  /**
   * Every request the adapter got is answered once and in order; the answers behind number `taken` are
   * still to be read.
   */
  predicate Line(bus: Bus) {
    && bus.taken + |bus.unread| + |bus.waiting| == bus.heard
    && InOrder(bus.unread, bus.taken, bus.answers)
    && Numbered(bus.waiting, bus.taken + |bus.unread|)
    && NoneAfter(bus.answers, bus.taken + |bus.unread|)
    && (bus.landed ==> bus.taken in bus.answers)
  }

  /** How many of these numbers are below k. */
  function Below(s: seq<nat>, k: nat): (n: nat)
    ensures n <= |s|
  {
    if s == [] then 0 else Below(s[..|s| - 1], k) + if s[|s| - 1] < k then 1 else 0
  }

  lemma {:induction false} AllBelow(s: seq<nat>, k: nat)
    requires forall i :: 0 <= i < |s| ==> s[i] < k
    ensures Below(s, k) == |s|
  {
    if s != [] {
      AllBelow(s[..|s| - 1], k);
    }
  }

  lemma {:induction false} BelowSnoc(s: seq<nat>, f: nat, k: nat)
    ensures Below(s + [f], k) == Below(s, k) + if f < k then 1 else 0
  {
    assert (s + [f])[..|s|] == s;
  }

  predicate Ascending(s: seq<nat>) { forall i, j :: 0 <= i < j < |s| ==> s[i] < s[j] }

  /** Request k of the host is the adapter's number a: as many numbers less as requests were lost before. */
  predicate OriginAt(a: nat, k: nat, lost: seq<nat>, serial: nat) {
    k <= serial && k !in lost && a + Below(lost, k) == k
  }

  predicate OriginsOk(origin: map<nat, nat>, lost: seq<nat>, heard: nat, serial: nat) {
    && (forall a {:trigger a in origin} :: 1 <= a <= heard ==> a in origin)
    && (forall a {:trigger origin[a]} :: a in origin ==> 1 <= a <= heard && OriginAt(a, origin[a], lost, serial))
  }

  predicate LostOk(lost: seq<nat>, serial: nat) {
    Ascending(lost) && forall i :: 0 <= i < |lost| ==> 1 <= lost[i] <= serial
  }

  /** Every request of the host was heard, was lost, or is on its way. */
  predicate Tracked(bus: Bus) { TrackedBy(bus.heard, bus.lost, bus.origin, bus.serial, bus.sending) }

  predicate TrackedBy(heard: nat, lost: seq<nat>, origin: map<nat, nat>, serial: nat, sending: bool) {
    && heard + |lost| + (if sending then 1 else 0) == serial
    && LostOk(lost, if sending then serial - 1 else serial)
    && OriginsOk(origin, lost, heard, if sending then serial - 1 else serial)
  }

  /** A new request goes out. */
  lemma {:induction false} TrackedSending(heard: nat, lost: seq<nat>, origin: map<nat, nat>, serial: nat)
    requires TrackedBy(heard, lost, origin, serial, false)
    ensures TrackedBy(heard, lost, origin, serial + 1, true) && serial + 1 !in lost
  {
  }

  /** The bus refuses it. */
  lemma {:induction false} TrackedRefused(heard: nat, lost: seq<nat>, origin: map<nat, nat>, serial: nat)
    requires TrackedBy(heard, lost, origin, serial, false)
    ensures TrackedBy(heard, lost + [serial + 1], origin, serial + 1, false)
  {
    OriginLost(origin, lost, heard, serial + 1);
  }

  /** The requests and the answers already given are never rewritten. */
  predicate History(was: Bus, now: Bus) {
    && now.serial == was.serial && now.asked == was.asked
    && was.lost <= now.lost && (forall k :: k in now.lost ==> k in was.lost || k == was.serial)
    && (!was.sending ==> !now.sending && now.heard == was.heard)
    && (forall k :: k in was.answers ==> k in now.answers && now.answers[k] == was.answers[k])
    && (forall a :: a in was.origin ==> a in now.origin && now.origin[a] == was.origin[a])
  }

  lemma {:induction false} LineArrives(bus: Bus)
    requires Line(bus)
    ensures Line(Arrived(bus))
  {
  }

  /** Whatever happens, the line of answers moves on in order. */
  lemma {:induction false} LineKept(e: Event, bus: Bus)
    requires Line(bus)
    ensures Line(After(e, bus))
  {
    var r := After(e, bus);
    if e.Answer? && bus.waiting != [] {
      forall i | 0 <= i < |r.unread|
        ensures AnswerAt(r.unread[i], r.taken + 1 + i, r.answers)
      {
        assert i < |bus.unread| ==> AnswerAt(bus.unread[i], bus.taken + 1 + i, bus.answers);
      }
    } else if e.Land? && CanLand(bus) {
      assert AnswerAt(bus.unread[0], bus.taken + 1 + 0, bus.answers);
      forall i | 0 <= i < |r.unread|
        ensures AnswerAt(r.unread[i], r.taken + 1 + i, r.answers)
      {
        assert AnswerAt(bus.unread[i + 1], bus.taken + 1 + (i + 1), bus.answers);
      }
    } else if e.Arrive? || e.OutDone? {
      LineArrives(bus);
    }
  }

  lemma {:induction false} OriginAdded(origin: map<nat, nat>, lost: seq<nat>, heard: nat, serial: nat)
    requires heard + |lost| + 1 == serial && OriginsOk(origin, lost, heard, serial - 1) && LostOk(lost, serial - 1)
    ensures OriginsOk(origin[heard + 1 := serial], lost, heard + 1, serial)
  {
    AllBelow(lost, serial);
    assert serial !in lost;
  }

  lemma {:induction false} OriginLost(origin: map<nat, nat>, lost: seq<nat>, heard: nat, serial: nat)
    requires serial > 0 && OriginsOk(origin, lost, heard, serial - 1) && LostOk(lost, serial - 1)
    ensures OriginsOk(origin, lost + [serial], heard, serial) && LostOk(lost + [serial], serial)
  {
    forall a {:trigger origin[a]} | a in origin
      ensures OriginAt(a, origin[a], lost + [serial], serial)
    {
      assert OriginAt(a, origin[a], lost, serial - 1);
      BelowSnoc(lost, serial, origin[a]);
    }
  }

  /** And every request stays accounted for. */
  lemma {:induction false} TrackedKept(e: Event, bus: Bus)
    requires Tracked(bus)
    ensures Tracked(After(e, bus))
  {
    if bus.sending {
      OriginAdded(bus.origin, bus.lost, bus.heard, bus.serial);
      OriginLost(bus.origin, bus.lost, bus.heard, bus.serial);
    }
  }

  lemma {:induction false} HistoryKept(e: Event, bus: Bus)
    requires Line(bus) && Tracked(bus)
    ensures History(bus, After(e, bus))
  {
  }
}

/** The exchange machine: one request and its reply at a time. */
module UsbExchange {
  import opened Options
  import opened Bytes
  import opened UsbBus

  const TIMEOUT := -300
  const BUSY := -301
  const DEAD := -302
  const BAD_BUFFER := -303
  const SHORT := -304
  const IDLE := -305

  /** The exchange on the wire. */
  datatype Exchange = Exchange(
    busy: bool, isPost: bool, outDone: bool, inDone: bool,
    outRes: int, inRes: int, outLen: nat, inBuf: nat, inCap: nat)

  /** xs_result. */
  function Result(x: Exchange): (r: int) {
    if x.outRes != x.outLen then if x.outRes < 0 then x.outRes else SHORT
    else if x.inRes < 0 then x.inRes
    else 0
  }

  /**
   * 0 exactly when the request went out in full and the reply was read; otherwise what went wrong, the request first.
   */
  lemma {:induction false} ResultIs(x: Exchange)
    ensures Result(x) == 0 <==> x.outRes == x.outLen && x.inRes >= 0
    ensures x.outRes < 0 ==> Result(x) == x.outRes
    ensures 0 <= x.outRes != x.outLen ==> Result(x) == -304
    ensures x.outRes == x.outLen && x.inRes < 0 ==> Result(x) == x.inRes
  {
  }

  /** The completion records of the current exchange. */
  function Absorb(x: Exchange, m: Message): (r: Exchange) {
    match m
    case OutReply(res) => x.(outDone := true, outRes := res)
    case InReply(res) => x.(inDone := true, inRes := res)
    case _ => x
  }

  /** What the wait made of the messages: it took a prefix, and only its own token, as the last one, ended it. */
  predicate Took(was: seq<Event>, now: seq<Event>, token: nat, armed: bool, expired: bool) {
    && |now| <= |was| && now == was[|was| - |now|..]
    && (expired ==> armed && |now| < |was| && was[|was| - |now| - 1] == Timer(token))
    && (armed ==> forall i :: 0 <= i < |was| - |now| - (if expired then 1 else 0) ==> was[i] != Timer(token))
  }

  /** No message is a multiple of 64 bytes: one more byte makes the last packet a short one. */
  function Framed(t: seq<byte>): (r: seq<byte>)
    ensures |r| % 64 != 0 && t <= r && |r| <= |t| + 1 && (|r| > |t| ==> r[|t|] == 0)
  {
    if |t| % 64 == 0 then t + [0] else t
  }

  /** 32-byte aligned and at most one 4 KB page crossing. */
  predicate DmaOk(p: nat, len: nat) { p % 32 == 0 && p % 4096 + len <= 8192 }

  /** Bytes [skip, skip + len) of a reply; past its end, zeros. */
  function Window(d: seq<byte>, skip: nat, len: nat): (r: seq<byte>)
    ensures |r| == len
  {
    seq(len, j requires 0 <= j < len => if skip + j < |d| then d[skip + j] else 0)
  }

  /** Byte by byte; and where the reply is long enough, it is that part of it. */
  lemma {:induction false} WindowIs(d: seq<byte>, skip: nat, len: nat)
    ensures forall j :: 0 <= j < len ==> Window(d, skip, len)[j] == if skip + j < |d| then d[skip + j] else 0
    ensures skip + len <= |d| ==> Window(d, skip, len) == d[skip..skip + len]
  {
  }

  /** The reply goes straight into the caller's buffer. */
  predicate Direct(rx: Option<nat>, rxLen: nat, skip: nat) {
    rx.Some? && skip == 0 && rxLen > 128 && DmaOk(rx.value, rxLen)
  }

  /** The bus calls of one exchange: do the two timers start, and do the two transfers. */
  datatype Calls = Calls(firstTimer: bool, secondTimer: bool, inStart: int, outStart: int)

  /** Returned: the call came back with a code. Blocked: it still waits for a message. */
  datatype Outcome = Returned(code: int) | Blocked
}
