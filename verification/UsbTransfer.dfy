/** The calls of the link as functions of its state, and what each of them promises. */
module UsbTransfer {
  import opened Options
  import opened Bytes
  import opened UsbBus
  import opened UsbExchange
  import opened UsbState

  const TX_MAX := 8191

  /** The buffers of a blocking exchange. */
  datatype Job = Job(tx: nat, txLen: nat, rx: Option<nat>, rxLen: nat, skip: nat)

  function Front(s: seq<byte>, n: nat): (r: seq<byte>)
    ensures n <= |s| ==> r == s[..n]
  {
    if n <= |s| then s[..n] else s
  }

  function Text(mem: Memory, tx: nat, txLen: nat): (r: seq<byte>) { Front(At(mem, tx), txLen) }

  /** The request is made up: in the bounce buffer when it is short, in place otherwise. */
  function Staged(mem: Memory, job: Job): (r: Memory) {
    var b := if job.txLen + 1 <= SMALL_OUT_SIZE then SMALL_OUT else job.tx;
    mem[b := Overlay(At(mem, b), Framed(Text(mem, job.tx, job.txLen)))]
  }

  predicate RequestFits(job: Job) { job.txLen + 1 <= SMALL_OUT_SIZE || DmaOk(job.tx, job.txLen + 1) }

  predicate IsDirect(job: Job) { Direct(job.rx, job.rxLen, job.skip) }

  predicate ReplyFits(job: Job) { IsDirect(job) || job.skip + job.rxLen <= SMALL_IN_SIZE }

  function ReplyBuffer(job: Job): (b: nat) { if IsDirect(job) then job.rx.value else SMALL_IN }

  function ReplyRoom(job: Job): (n: nat) { if IsDirect(job) then job.rxLen else SMALL_IN_SIZE }

  /** Start, wait, result. */
  function RoundTrips(s: State, es: seq<Event>, tok: nat, request: seq<byte>, buf: nat, cap: nat, timeout: nat,
                      calls: Calls): (w: Step) {
    var l := Launched(s, request, buf, cap, false, calls);
    if l.1 < 0 then Step(l.0, es, tok, Returned(l.1))
    else Resulting(Waits(l.0, es, tok, timeout, calls.secondTimer))
  }

  function Resulting(w: Step): (r: Step) {
    if w.outcome == Returned(0) then w.(outcome := Returned(Result(w.state.x))) else w
  }

  /** The part of the reply the caller asked for, from the bounce buffer. */
  function Copied(s: State, rx: nat, rxLen: nat, skip: nat): (r: State) {
    var got := Front(At(s.mem, SMALL_IN), if s.x.inRes >= 0 then s.x.inRes else 0);
    s.(mem := s.mem[rx := Overlay(At(s.mem, rx), Window(got, skip, rxLen))])
  }

  /** The framed request goes out; the reply comes in directly or through the bounce buffer. */
  function Carries(s: State, es: seq<Event>, tok: nat, request: seq<byte>, job: Job, timeout: nat,
                   calls: Calls): (w: Step) {
    var w := RoundTrips(s, es, tok, request, ReplyBuffer(job), ReplyRoom(job), timeout, calls);
    if w.outcome == Returned(0) && !IsDirect(job) && job.rx.Some? && job.rxLen > 0 then
      w.(state := Copied(w.state, job.rx.value, job.rxLen, job.skip))
    else w
  }

  /** The exchange proper, over a free wire. */
  function Serves(s: State, es: seq<Event>, tok: nat, job: Job, timeout: nat, calls: Calls): (w: Step) {
    if !RequestFits(job) then Step(s, es, tok, Returned(BAD_BUFFER))
    else
      var m := s.(mem := Staged(s.mem, job));
      if !ReplyFits(job) then Step(m, es, tok, Returned(BAD_BUFFER))
      else Carries(m, es, tok, Framed(Text(s.mem, job.tx, job.txLen)), job, timeout, calls)
  }

  /** ra_usb_xfer: whatever is still on the wire goes first. */
  function Transfers(s: State, es: seq<Event>, tok: nat, job: Job, timeout: nat, calls: Calls): (w: Step) {
    var w := Waits(s, es, tok, timeout, calls.firstTimer);
    if w.outcome == Returned(0) then Serves(w.state, w.rest, w.tok, job, timeout, calls)
    else w.(outcome := if w.outcome == Blocked then Blocked else Returned(BUSY))
  }

  /** What a blocking exchange asks of its caller: real buffers, apart from each other and from a posted reply. */
  predicate Usable(s: State, job: Job) {
    && job.tx in s.mem && job.tx != SMALL_IN && job.tx != SMALL_OUT && job.txLen <= |s.mem[job.tx]|
    && (job.txLen + 1 > SMALL_OUT_SIZE && job.txLen % 64 == 0 ==> job.txLen < |s.mem[job.tx]|)
    && (s.x.busy ==> s.x.inBuf != job.tx)
    && (s.postOpen ==> job.tx != s.post.buf)
    && (job.rx.Some? ==>
          && job.rx.value in s.mem && job.rx.value != SMALL_IN && job.rx.value != SMALL_OUT && job.rx.value != job.tx
          && job.rxLen <= |s.mem[job.rx.value]|
          && (s.postOpen ==> job.rx.value != s.post.buf))
  }

  predicate SamePost(s: State, t: State) { t.postOpen == s.postOpen && t.post == s.post }

  /** Results are recorded once; buffers keep their sizes. */
  predicate Onward(s: State, t: State) {
    && SameShape(s.mem, t.mem)
    && (forall k :: k in s.results ==> k in t.results && t.results[k] == s.results[k])
    && (forall k :: k in s.bus.answers ==> k in t.bus.answers && t.bus.answers[k] == s.bus.answers[k])
  }

  /** The exchange still on the wire, if any, is an old one or reads into one of these buffers. */
  predicate WireAt(s: State, t: State, rx: Option<nat>) {
    t.x.busy ==> (s.x.busy && t.x.inBuf == s.x.inBuf) || t.x.inBuf == SMALL_IN || rx == Some(t.x.inBuf)
  }

  predicate OnlyBuffer(was: Memory, now: Memory, buf: nat) {
    forall b :: b in was && b != buf ==> b in now && now[b] == was[b]
  }

  /**
   * The outcome of an exchange over a free wire: refused, or started and then still under way, or ended with its own
   * result.
   */
  predicate Explains(wasDead: bool, serial: nat, t: State, calls: Calls, o: Outcome) {
    if wasDead then o == Returned(DEAD) && t.bus.serial == serial && !t.x.busy
    else if calls.inStart < 0 then o == Returned(calls.inStart) && t.bus.serial == serial && !t.x.busy
    else
      && t.bus.serial == serial + 1
      && if calls.outStart < 0 then o == Returned(DEAD) && t.dead && t.x.busy
         else if t.x.busy then o == Returned(TIMEOUT) || o == Blocked
         else t.bus.serial in t.results && o == Returned(t.results[t.bus.serial])
  }

  /** An exchange that ended well: the answer next in line is over the earlier contents of its buffer. */
  predicate Brought(s: State, t: State, request: seq<byte>, buf: nat, cap: nat) {
    && !t.x.busy && t.bus.serial == s.bus.serial + 1 && t.bus.asked == s.bus.asked[t.bus.serial := request]
    && t.bus.taken == s.bus.taken + 1 && t.bus.taken in t.bus.answers && t.failed == s.failed
    && t.bus.serial in t.sources && t.sources[t.bus.serial] == t.bus.taken
    && |t.bus.answers[t.bus.taken]| <= cap && t.x.inRes == |t.bus.answers[t.bus.taken]|
    && t.mem == s.mem[buf := Overlay(At(s.mem, buf), t.bus.answers[t.bus.taken])]
  }

  /** One request and its reply over a free wire. */
  predicate Trip(s: State, t: State, request: seq<byte>, buf: nat, cap: nat, calls: Calls, o: Outcome) {
    && Explains(s.dead, s.bus.serial, t, calls, o)
    && OnlyBuffer(s.mem, t.mem, buf) && SamePost(s, t) && Onward(s, t) && (t.x.busy ==> t.x.inBuf == buf)
    && (o == Returned(0) ==> Brought(s, t, request, buf, cap))
  }

  lemma {:induction false} TripStarted(s: State, request: seq<byte>, buf: nat, cap: nat, calls: Calls, m: State,
                                       t: State, o: Outcome)
    requires Ok(s) && !s.x.busy && buf in s.mem && !s.dead && calls.inStart >= 0 && calls.outStart >= 0
    requires m == Started(s, request, buf, cap, false, calls.outStart) && Waited(m, t, o) && Ok(t) && Ok(m)
    ensures Trip(s, t, request, buf, cap, calls, if o == Returned(0) then Returned(Result(t.x)) else o)
  {
    TripFrame(s, request, buf, cap, calls, m, t, o);
    if o == Returned(0) && Result(t.x) == 0 {
      TripBrings(s, request, buf, cap, calls, m, t);
    }
  }

  /** What changes elsewhere while an exchange waits: nothing. */
  lemma {:induction false} TripFrame(s: State, request: seq<byte>, buf: nat, cap: nat, calls: Calls, m: State,
                                     t: State, o: Outcome)
    requires ResultsOk(s) && !s.x.busy && buf in s.mem && calls.outStart >= 0
    requires m == Started(s, request, buf, cap, false, calls.outStart) && Waited(m, t, o)
    ensures OnlyBuffer(s.mem, t.mem, buf) && SamePost(s, t) && Onward(s, t) && (t.x.busy ==> t.x.inBuf == buf)
  {
  }

  lemma {:induction false} TripBrings(s: State, request: seq<byte>, buf: nat, cap: nat, calls: Calls, m: State,
                                      t: State)
    requires Counted(s) && !s.x.busy && calls.outStart >= 0 && Counted(m) && Counted(t)
    requires m == Started(s, request, buf, cap, false, calls.outStart) && Waited(m, t, Returned(0)) && Result(t.x) == 0
    ensures Brought(s, t, request, buf, cap)
  {
  }

  lemma {:induction false} RoundTripsKeeps(s: State, es: seq<Event>, tok: nat, request: seq<byte>, buf: nat, cap: nat,
                                           timeout: nat, calls: Calls)
    requires Ok(s) && !s.x.busy && buf in s.mem && cap <= |s.mem[buf]| && (s.postOpen ==> buf != s.post.buf)
    ensures var w := RoundTrips(s, es, tok, request, buf, cap, timeout, calls);
            Ok(w.state) && Trip(s, w.state, request, buf, cap, calls, w.outcome)
  {
    if s.dead {
    } else if calls.inStart < 0 {
      RefusedKeeps(s, request, buf, cap, false);
    } else {
      StartKeeps(s, request, buf, cap, calls.outStart);
      if calls.outStart >= 0 {
        var m := Started(s, request, buf, cap, false, calls.outStart);
        WaitsKeeps(m, es, tok, timeout, calls.secondTimer);
        var w := Waits(m, es, tok, timeout, calls.secondTimer);
        TripStarted(s, request, buf, cap, calls, m, w.state, w.outcome);
      }
    }
  }

  /** The exchange asked what the caller's buffer says, and got the answer next in line. */
  predicate Answered(s: State, t: State, job: Job) {
    && !t.x.busy && t.bus.serial == s.bus.serial + 1
    && t.bus.asked == s.bus.asked[t.bus.serial := Framed(Text(s.mem, job.tx, job.txLen))]
    && t.bus.taken in t.bus.answers
    && t.bus.serial in t.sources && t.sources[t.bus.serial] == t.bus.taken
    && t.bus.taken + |t.failed| == t.bus.serial
  }

  /**
   * What the caller gets of a reply: directly, its bytes; through the bounce buffer, those asked for, zeros past its
   * end.
   */
  function Portion(job: Job, reply: seq<byte>): (r: seq<byte>) {
    if IsDirect(job) then reply else Window(reply, job.skip, job.rxLen)
  }

  /** The caller's buffer holds its portion of the reply, over these contents. */
  predicate Delivered(bus: Bus, mem: Memory, job: Job, base: seq<byte>) {
    bus.taken in bus.answers &&
    var reply := bus.answers[bus.taken];
    job.rx.Some? ==>
      && (IsDirect(job) ==> |reply| <= job.rxLen)
      && At(mem, job.rx.value) == Overlay(base, Portion(job, reply))
  }

  /**
   * What a caller finds in its buffer: the bytes of the reply from `skip` on; and behind the end of a reply that went
   * through the bounce buffer, zeros.
   */
  ghost predicate Handed(buf: seq<byte>, job: Job, reply: seq<byte>) {
    && job.rxLen <= |buf|
    && (forall j :: 0 <= j < job.rxLen && job.skip + j < |reply| ==> buf[j] == reply[job.skip + j])
    && (job.skip + job.rxLen <= |reply| ==> buf[..job.rxLen] == reply[job.skip..job.skip + job.rxLen])
    && (job.skip > 0 || job.rxLen <= 128 ==>
          forall j :: 0 <= j < job.rxLen && job.skip + j >= |reply| ==> buf[j] == 0)
  }

  lemma {:induction false} OverlayHands(base: seq<byte>, job: Job, reply: seq<byte>)
    requires job.rxLen <= |base| && (IsDirect(job) ==> |reply| <= job.rxLen)
    ensures Handed(Overlay(base, Portion(job, reply)), job, reply)
  {
    var p := Portion(job, reply);
    var buf := Overlay(base, p);
    WindowIs(reply, job.skip, job.rxLen);
    OverlayIs(base, p);
    forall j | 0 <= j < job.rxLen && job.skip + j < |reply|
      ensures buf[j] == reply[job.skip + j]
    {
      assert j < |p| && p[j] == reply[job.skip + j];
    }
    if job.skip + job.rxLen <= |reply| {
      assert buf[..job.rxLen] == reply[job.skip..job.skip + job.rxLen];
    }
  }

  lemma {:induction false} DeliveredHands(bus: Bus, mem: Memory, job: Job, base: seq<byte>)
    requires job.rx.Some? && job.rxLen <= |base| && Delivered(bus, mem, job, base)
    ensures Handed(At(mem, job.rx.value), job, bus.answers[bus.taken])
  {
    OverlayHands(base, job, bus.answers[bus.taken]);
  }

  /** Only the buffers of the exchange change, and of the request only what follows it. */
  predicate Elsewhere(was: Memory, now: Memory, job: Job) {
    && (forall b :: b in was && b != SMALL_IN && b != SMALL_OUT && b != job.tx && job.rx != Some(b) ==>
          b in now && now[b] == was[b])
    && Text(now, job.tx, job.txLen) == Text(was, job.tx, job.txLen)
  }

  predicate Fits(job: Job) { RequestFits(job) && ReplyFits(job) }

  /**
   * Which buffers an exchange can use: the bounce buffers of 288 and 128 bytes, or the caller's own where they allow
   * it.
   */
  lemma {:induction false} FitsExactly(job: Job)
    ensures Fits(job) <==>
      && (job.txLen < 288 || (job.tx % 32 == 0 && job.tx % 4096 + job.txLen < 8192))
      && (job.skip + job.rxLen <= 128
          || (job.rx.Some? && job.skip == 0 && job.rx.value % 32 == 0 && job.rx.value % 4096 + job.rxLen <= 8192))
  {
  }

  /** A framed request and its reply, delivered. */
  predicate Carried(s: State, t: State, request: seq<byte>, job: Job, calls: Calls, o: Outcome) {
    && (o == Returned(0) ==>
          && !t.x.busy && t.bus.serial == s.bus.serial + 1 && t.bus.asked == s.bus.asked[t.bus.serial := request]
          && t.bus.taken == s.bus.taken + 1 && t.failed == s.failed
          && t.bus.serial in t.sources && t.sources[t.bus.serial] == t.bus.taken
          && (job.rx.Some? ==> Delivered(t.bus, t.mem, job, At(s.mem, job.rx.value))))
    && (o == Returned(0) ==> t.bus.taken in t.bus.answers)
    && SamePost(s, t) && Onward(s, t) && WireAt(s, t, job.rx)
    && (forall b :: b in s.mem && b != SMALL_IN && job.rx != Some(b) ==> b in t.mem && t.mem[b] == s.mem[b])
    && Explains(s.dead, s.bus.serial, t, calls, o)
  }

  /** An exchange over a free wire, from request to delivery. */
  predicate Served(s: State, t: State, job: Job, calls: Calls, o: Outcome) {
    && (o == Returned(0) ==>
          && Answered(s, t, job) && t.bus.taken == s.bus.taken + 1 && t.failed == s.failed
          && (job.rx.Some? ==> Delivered(t.bus, t.mem, job, At(s.mem, job.rx.value))))
    && SamePost(s, t) && Onward(s, t) && WireAt(s, t, job.rx) && Elsewhere(s.mem, t.mem, job)
    && if Fits(job) then Explains(s.dead, s.bus.serial, t, calls, o)
       else o == Returned(BAD_BUFFER) && t.bus == s.bus && !t.x.busy
  }

  lemma {:induction false} FrontOverlay(s: seq<byte>, d: seq<byte>)
    requires |d| <= |s|
    ensures Front(Overlay(s, d), |d|) == d
  {
  }

  /** A carried step from a sound state. */
  predicate CarriedOk(s: State, w: Step, request: seq<byte>, job: Job, calls: Calls) {
    Ok(w.state) && Carried(s, w.state, request, job, calls, w.outcome)
  }

  lemma {:induction false} CarriedDirect(s: State, w: Step, request: seq<byte>, job: Job, calls: Calls)
    requires IsDirect(job) && Ok(w.state) && Trip(s, w.state, request, job.rx.value, job.rxLen, calls, w.outcome)
    requires job.rx.value in s.mem && job.rxLen <= |s.mem[job.rx.value]|
    ensures CarriedOk(s, w, request, job, calls)
  {
  }

  lemma {:induction false} CarriedNowhere(s: State, w: Step, request: seq<byte>, job: Job, calls: Calls)
    requires !IsDirect(job) && Ok(w.state) && Trip(s, w.state, request, SMALL_IN, SMALL_IN_SIZE, calls, w.outcome)
    requires w.outcome == Returned(0) && job.rx.Some? ==>
      job.rxLen == 0 && job.rx.value in s.mem && job.rx.value != SMALL_IN
    ensures CarriedOk(s, w, request, job, calls)
  {
    var t := w.state;
    if w.outcome == Returned(0) && job.rx.Some? {
      var none := Window(t.bus.answers[t.bus.taken], job.skip, 0);
      assert none == [] && Overlay(At(s.mem, job.rx.value), none) == At(s.mem, job.rx.value);
    }
  }

  /** What the bounce buffer holds is the reply. */
  lemma {:induction false} CopiedIs(s: State, t: State, request: seq<byte>, job: Job)
    requires !IsDirect(job) && Brought(s, t, request, SMALL_IN, SMALL_IN_SIZE) && Bounces(s.mem)
    requires job.rx.Some? && job.rx.value in s.mem && job.rx.value != SMALL_IN
    ensures var c := Copied(t, job.rx.value, job.rxLen, job.skip);
            && c == t.(mem := c.mem)
            && c.mem == t.mem[job.rx.value := Overlay(s.mem[job.rx.value], Portion(job, t.bus.answers[t.bus.taken]))]
  {
    FrontOverlay(s.mem[SMALL_IN], t.bus.answers[t.bus.taken]);
  }

  lemma {:induction false} CarriedCopied(s: State, w: Step, request: seq<byte>, job: Job, calls: Calls)
    requires !IsDirect(job) && Ok(w.state) && w.outcome == Returned(0)
    requires Trip(s, w.state, request, SMALL_IN, SMALL_IN_SIZE, calls, w.outcome)
    requires Bounces(s.mem)
    requires job.rx.Some? && job.rx.value in s.mem && job.rx.value != SMALL_IN
    requires (s.postOpen ==> job.rx.value != s.post.buf)
    ensures CarriedOk(s, w.(state := Copied(w.state, job.rx.value, job.rxLen, job.skip)), request, job, calls)
  {
    CopiedIs(s, w.state, request, job);
    TouchKeeps(w.state, job.rx.value, Copied(w.state, job.rx.value, job.rxLen, job.skip).mem[job.rx.value]);
  }

  lemma {:induction false} CarriesKeeps(s: State, es: seq<Event>, tok: nat, request: seq<byte>, job: Job, timeout: nat,
                                        calls: Calls)
    requires Ok(s) && !s.x.busy && ReplyFits(job)
    requires job.rx.Some? ==>
      && job.rx.value in s.mem && job.rx.value != SMALL_IN && job.rxLen <= |s.mem[job.rx.value]|
      && (s.postOpen ==> job.rx.value != s.post.buf)
    ensures CarriedOk(s, Carries(s, es, tok, request, job, timeout, calls), request, job, calls)
  {
    RoundTripsKeeps(s, es, tok, request, ReplyBuffer(job), ReplyRoom(job), timeout, calls);
    var w := RoundTrips(s, es, tok, request, ReplyBuffer(job), ReplyRoom(job), timeout, calls);
    if IsDirect(job) {
      CarriedDirect(s, w, request, job, calls);
    } else if w.outcome == Returned(0) && job.rx.Some? && job.rxLen > 0 {
      CarriedCopied(s, w, request, job, calls);
    } else {
      CarriedNowhere(s, w, request, job, calls);
    }
  }

  /** Making up the request changes nothing else. */
  lemma {:induction false} StagedKeeps(s: State, job: Job)
    requires Ok(s) && Usable(s, job) && !s.x.busy
    ensures var m := s.(mem := Staged(s.mem, job));
            && Ok(m) && Usable(m, job) && SameShape(s.mem, m.mem)
            && Text(m.mem, job.tx, job.txLen) == Text(s.mem, job.tx, job.txLen)
            && forall b :: b in s.mem && b != SMALL_OUT && b != job.tx ==> m.mem[b] == s.mem[b]
  {
    var b := if job.txLen + 1 <= SMALL_OUT_SIZE then SMALL_OUT else job.tx;
    TouchKeeps(s, b, Overlay(s.mem[b], Framed(Text(s.mem, job.tx, job.txLen))));
  }

  lemma {:induction false} ServedAll(s: State, m: State, t: State, job: Job, calls: Calls, o: Outcome)
    requires Ok(s) && Usable(s, job) && Fits(job) && m == s.(mem := m.mem) && SameShape(s.mem, m.mem) && Ok(t)
    requires Text(m.mem, job.tx, job.txLen) == Text(s.mem, job.tx, job.txLen)
    requires forall b :: b in s.mem && b != SMALL_OUT && b != job.tx ==> m.mem[b] == s.mem[b]
    requires Carried(m, t, Framed(Text(s.mem, job.tx, job.txLen)), job, calls, o)
    ensures Served(s, t, job, calls, o)
  {
  }

  lemma {:induction false} ServesKeeps(s: State, es: seq<Event>, tok: nat, job: Job, timeout: nat, calls: Calls)
    requires Ok(s) && !s.x.busy && Usable(s, job)
    ensures var w := Serves(s, es, tok, job, timeout, calls);
            Ok(w.state) && Served(s, w.state, job, calls, w.outcome)
  {
    if RequestFits(job) {
      StagedKeeps(s, job);
      if ReplyFits(job) {
        var m := s.(mem := Staged(s.mem, job));
        var request := Framed(Text(s.mem, job.tx, job.txLen));
        CarriesKeeps(m, es, tok, request, job, timeout, calls);
        var w := Carries(m, es, tok, request, job, timeout, calls);
        ServedAll(s, m, w.state, job, calls, w.outcome);
      }
    }
  }

  /**
   * The contents a reply is laid over: the caller's, with the late reply of an unfinished exchange
   * into the same buffer over them when that arrived first.
   */
  function Base(s: State, bus: Bus, rx: nat): (r: seq<byte>) {
    if s.x.busy && s.x.inBuf == rx && bus.taken == s.bus.taken + 2 && s.bus.taken + 1 in bus.answers then
      Overlay(At(s.mem, rx), bus.answers[s.bus.taken + 1])
    else At(s.mem, rx)
  }

  /** The exchange that was on the wire got its reply. */
  predicate LateArrival(s: State, bus: Bus) {
    && s.x.busy && !s.x.inDone && !Received(s)
    && s.bus.taken + 1 in bus.answers && |bus.answers[s.bus.taken + 1]| <= s.x.inCap
    && (s.bus.unread != [] || s.bus.waiting != [] || s.bus.sending)
  }

  /**
   * Why a blocking exchange returned what it did: the wire never came free, the buffers do not fit, or its own exchange
   * says so.
   */
  predicate Accounted(s: State, t: State, job: Job, calls: Calls, o: Outcome) {
    if t.x.busy && t.bus.serial == s.bus.serial then s.x.busy && (o == Returned(BUSY) || o == Blocked)
    else if !Fits(job) then o == Returned(BAD_BUFFER) && t.bus.serial == s.bus.serial && !t.x.busy
    else Explains(s.dead, s.bus.serial, t, calls, o)
  }

  /** The buffers a blocking exchange uses, that of an unfinished one included. */
  predicate InUse(s: State, job: Job, b: nat) {
    b == SMALL_IN || b == SMALL_OUT || b == job.tx || job.rx == Some(b) || (s.x.busy && s.x.inBuf == b)
  }

  /** Only the buffers of the exchange and of one that was unfinished change. */
  predicate Apart(s: State, now: Memory, job: Job) {
    && (forall b :: b in s.mem && !InUse(s, job, b) ==> b in now && now[b] == s.mem[b])
    && Text(now, job.tx, job.txLen) == Text(s.mem, job.tx, job.txLen)
  }

  /** The request was answered, and the answer next in line delivered. */
  predicate Fetched(s: State, t: State, job: Job) {
    && Answered(s, t, job)
    && s.bus.taken < t.bus.taken <= s.bus.taken + 2 && (t.bus.taken == s.bus.taken + 2 ==> LateArrival(s, t.bus))
    && (job.rx.Some? ==> Delivered(t.bus, t.mem, job, Base(s, t.bus, job.rx.value)))
  }

  /**
   * A blocking exchange behind whatever was on the wire: 0 only when its own request was answered and
   * the answer next in line was delivered; otherwise an outcome that the wire, the buffers or its own exchange explain.
   */
  predicate Transferred(s: State, t: State, job: Job, calls: Calls, o: Outcome) {
    && (o == Returned(0) ==> Fetched(s, t, job))
    && SamePost(s, t) && Onward(s, t) && WireAt(s, t, job.rx) && Apart(s, t.mem, job)
    && Accounted(s, t, job, calls, o)
  }

  lemma {:induction false} WaitLeaves(s: State, m: State, job: Job, o: Outcome)
    requires Ok(s) && s.x.busy && Waited(s, m, o) && Ok(m) && Usable(s, job)
    ensures m.x.busy ==> m.x.inBuf == s.x.inBuf
    ensures Usable(m, job) && At(m.mem, job.tx) == At(s.mem, job.tx) && SamePost(s, m) && Onward(s, m)
    ensures forall b :: b in s.mem && b != s.x.inBuf ==> b in m.mem && m.mem[b] == s.mem[b]
    ensures m.dead == s.dead && m.bus.serial == s.bus.serial && m.bus.asked == s.bus.asked
    ensures s.bus.taken <= m.bus.taken <= s.bus.taken + 1
    ensures m.bus.taken == s.bus.taken + 1 ==>
      m.bus.taken in m.bus.answers && At(m.mem, s.x.inBuf) == Overlay(At(s.mem, s.x.inBuf), m.bus.answers[m.bus.taken])
    ensures m.bus.taken == s.bus.taken ==> m.mem == s.mem
    ensures m.bus.taken == s.bus.taken + 1 && o == Returned(0) ==> LateArrival(s, m.bus)
  {
  }

  lemma {:induction false} TransferBehind(s: State, m: State, t: State, job: Job, calls: Calls, o: Outcome)
    requires Ok(s) && Usable(s, job) && s.x.busy && Waited(s, m, Returned(0)) && Ok(m) && Served(m, t, job, calls, o)
    ensures Transferred(s, t, job, calls, o)
  {
    WaitLeaves(s, m, job, Returned(0));
    ApartBehind(s, m, t.mem, job);
    if o == Returned(0) {
      FetchedBehind(s, m, t, job, calls);
    }
  }

  lemma {:induction false} ApartBehind(s: State, m: State, now: Memory, job: Job)
    requires Ok(s) && Usable(s, job) && s.x.busy && Waited(s, m, Returned(0)) && Ok(m) && Elsewhere(m.mem, now, job)
    ensures Apart(s, now, job)
  {
    WaitLeaves(s, m, job, Returned(0));
  }

  lemma {:induction false} FetchedBehind(s: State, m: State, t: State, job: Job, calls: Calls)
    requires Ok(s) && Usable(s, job) && s.x.busy && Waited(s, m, Returned(0)) && Ok(m)
    requires Served(m, t, job, calls, Returned(0))
    ensures Fetched(s, t, job)
  {
    WaitLeaves(s, m, job, Returned(0));
    if job.rx.Some? {
      BaseBehind(s, m, t, job.rx.value);
    }
  }

  lemma {:induction false} BaseBehind(s: State, m: State, t: State, rx: nat)
    requires s.bus.taken <= m.bus.taken <= s.bus.taken + 1 && t.bus.taken == m.bus.taken + 1 && Onward(m, t)
    requires rx != s.x.inBuf ==> At(m.mem, rx) == At(s.mem, rx)
    requires s.x.busy && (m.bus.taken == s.bus.taken ==> m.mem == s.mem)
    requires m.bus.taken == s.bus.taken + 1 ==>
      m.bus.taken in m.bus.answers && At(m.mem, s.x.inBuf) == Overlay(At(s.mem, s.x.inBuf), m.bus.answers[m.bus.taken])
    ensures Base(s, t.bus, rx) == At(m.mem, rx)
  {
  }

  lemma {:induction false} TransferFree(s: State, t: State, job: Job, calls: Calls, o: Outcome)
    requires Ok(s) && !s.x.busy && Usable(s, job) && Served(s, t, job, calls, o)
    ensures Transferred(s, t, job, calls, o)
  {
  }

  lemma {:induction false} TransferStuck(s: State, t: State, job: Job, calls: Calls, w: Outcome)
    requires Ok(s) && s.x.busy && Usable(s, job) && Waited(s, t, w) && Ok(t) && w != Returned(0)
    ensures Transferred(s, t, job, calls, if w == Blocked then Blocked else Returned(BUSY))
  {
    WaitLeaves(s, t, job, w);
  }

  /** A blocking exchange, from any sound state and however the wire behaves. */
  lemma {:induction false} TransfersKeeps(s: State, es: seq<Event>, tok: nat, job: Job, timeout: nat, calls: Calls)
    requires Ok(s) && Usable(s, job)
    ensures var w := Transfers(s, es, tok, job, timeout, calls);
            Ok(w.state) && Transferred(s, w.state, job, calls, w.outcome)
  {
    WaitsKeeps(s, es, tok, timeout, calls.firstTimer);
    var w := Waits(s, es, tok, timeout, calls.firstTimer);
    if w.outcome != Returned(0) {
      TransferStuck(s, w.state, job, calls, w.outcome);
    } else {
      if s.x.busy {
        WaitLeaves(s, w.state, job, w.outcome);
      }
      ServesKeeps(w.state, w.rest, w.tok, job, timeout, calls);
      var v := Serves(w.state, w.rest, w.tok, job, timeout, calls);
      if s.x.busy {
        TransferBehind(s, w.state, v.state, job, calls, v.outcome);
      } else {
        TransferFree(s, v.state, job, calls, v.outcome);
      }
    }
  }

  /** An exchange that returns 0 hands its caller the part of the reply asked for. */
  lemma {:induction false} TransferHands(s: State, t: State, job: Job, calls: Calls)
    requires Usable(s, job) && job.rx.Some? && Transferred(s, t, job, calls, Returned(0))
    ensures t.bus.taken in t.bus.answers && Handed(At(t.mem, job.rx.value), job, t.bus.answers[t.bus.taken])
  {
    DeliveredHands(t.bus, t.mem, job, Base(s, t.bus, job.rx.value));
  }

  lemma {:induction false} StepTransfers(s: State, es: seq<Event>, tok: nat, job: Job, timeout: nat, calls: Calls,
                                         w: Step)
    requires Ok(s) && Usable(s, job) && w == Transfers(s, es, tok, job, timeout, calls)
    ensures Ok(w.state) && Transferred(s, w.state, job, calls, w.outcome)
  {
    TransfersKeeps(s, es, tok, job, timeout, calls);
  }

  /** The request of a post is made up in place. */
  function Padded(s: State, tx: nat, txLen: nat): (r: State) {
    s.(mem := s.mem[tx := Overlay(At(s.mem, tx), Framed(Text(s.mem, tx, txLen)))])
  }

  predicate PostFits(tx: nat, txLen: nat, rx: nat, rxCap: nat) {
    txLen <= TX_MAX && DmaOk(tx, txLen + 1) && DmaOk(rx, rxCap)
  }

  /** ra_usb_post: the exchange goes on the wire and the call returns at once. */
  function Posts(s: State, tx: nat, txLen: nat, rx: nat, rxCap: nat, calls: Calls): (r: (State, int)) {
    if s.x.busy || s.postOpen then (s, BUSY)
    else if !PostFits(tx, txLen, rx, rxCap) then (s, BAD_BUFFER)
    else Posting(s, tx, txLen, rx, rxCap, calls)
  }

  function Posting(s: State, tx: nat, txLen: nat, rx: nat, rxCap: nat, calls: Calls): (r: (State, int)) {
    var l := Launched(Padded(s, tx, txLen), Framed(Text(s.mem, tx, txLen)), rx, rxCap, true, calls);
    if l.1 < 0 then l else (Opened(l.0), 0)
  }

  /** What a post asks of its caller: real buffers, with room for the framing byte. */
  predicate Postable(s: State, tx: nat, txLen: nat, rx: nat, rxCap: nat) {
    && tx in s.mem && rx in s.mem && rxCap <= |s.mem[rx]| && |Framed(Text(s.mem, tx, txLen))| <= |s.mem[tx]|
    && tx != SMALL_IN && tx != SMALL_OUT && rx != SMALL_IN && rx != SMALL_OUT
  }

  /** The code of a post: nothing but link, buffers and bus decide it. */
  function PostCode(s: State, fits: bool, calls: Calls): (r: int) {
    if s.x.busy || s.postOpen then BUSY
    else if !fits then BAD_BUFFER
    else if s.dead then DEAD
    else if calls.inStart < 0 then calls.inStart
    else if calls.outStart < 0 then DEAD else 0
  }

  /** A post that returns 0 has put its request on the wire and is the open one; any other leaves no post. */
  predicate PutOut(s: State, t: State, text: seq<byte>, rx: nat, r: int) {
    && t.results == s.results && t.failed == s.failed && Onward(s, t) && WireAt(s, t, Some(rx))
    && if r != 0 then SamePost(s, t)
       else
         && !s.postOpen && t.postOpen && !t.postReady && t.x.busy && t.x.isPost
         && t.bus.serial == s.bus.serial + 1 && t.bus.asked == s.bus.asked[t.bus.serial := Framed(text)]
         && t.post.serial == t.bus.serial && t.post.buf == rx && t.post.before == At(t.mem, rx)
  }

  lemma {:induction false} PaddedKeeps(s: State, tx: nat, txLen: nat)
    requires Ok(s) && !s.postOpen && tx in s.mem && |Framed(Text(s.mem, tx, txLen))| <= |s.mem[tx]|
    ensures Ok(Padded(s, tx, txLen)) && SameShape(s.mem, Padded(s, tx, txLen).mem)
  {
    TouchKeeps(s, tx, Overlay(At(s.mem, tx), Framed(Text(s.mem, tx, txLen))));
  }

  lemma {:induction false} PostsKeeps(s: State, tx: nat, txLen: nat, rx: nat, rxCap: nat, calls: Calls)
    requires Ok(s) && Postable(s, tx, txLen, rx, rxCap)
    ensures var p := Posts(s, tx, txLen, rx, rxCap, calls);
            && Ok(p.0) && p.1 == PostCode(s, PostFits(tx, txLen, rx, rxCap), calls)
            && PutOut(s, p.0, Text(s.mem, tx, txLen), rx, p.1)
            && forall b :: b in s.mem && b != tx ==> b in p.0.mem && p.0.mem[b] == s.mem[b]
  {
    if !s.x.busy && !s.postOpen && PostFits(tx, txLen, rx, rxCap) {
      var m, request := Padded(s, tx, txLen), Framed(Text(s.mem, tx, txLen));
      PaddedKeeps(s, tx, txLen);
      if !s.dead && calls.inStart < 0 {
        RefusedKeeps(m, request, rx, rxCap, true);
      } else if !s.dead {
        PostKeeps(m, request, rx, rxCap, calls.outStart);
      }
    }
  }

  function Reaping(w: Step): (r: Step) {
    if w.outcome == Returned(0) then
      w.(state := w.state.(postOpen := false, postReady := false), outcome := Returned(w.state.postRes))
    else w
  }

  /** ra_usb_reap: the posted exchange ends exactly once, with its own result. */
  function Reaps(s: State, es: seq<Event>, tok: nat, timeout: nat, timerStarts: bool): (w: Step) {
    if !s.postOpen then Step(s, es, tok, Returned(IDLE))
    else if s.postReady then Reaping(Step(s, es, tok, Returned(0)))
    else Reaping(Waits(s, es, tok, if timeout > 0 then timeout else 1, timerStarts))
  }

  /** Still on the wire and still posted, or reaped with the result of its own exchange and the answer that got. */
  predicate Reaped(s: State, r: State, o: Outcome) {
    Onward(s, r) && WireAt(s, r, None) &&
    if r.postOpen then
      (o == Returned(TIMEOUT) || o == Blocked) && r.post == s.post && !r.postReady && r.x.busy && r.results == s.results
    else
      && s.post.serial in r.results && o == Returned(r.results[s.post.serial])
      && !r.postReady
      && (o == Returned(0) ==>
            && s.post.serial in r.sources
            && HasReply(r.bus, r.mem, r.sources[s.post.serial], s.post.buf, s.post.before))
  }

  lemma {:induction false} ReapedReady(s: State)
    requires Ok(s) && s.postOpen && s.postReady
    ensures var r := s.(postOpen := false, postReady := false);
            Ok(r) && Reaped(s, r, Returned(s.postRes))
  {
    ReapKeeps(s);
  }

  lemma {:induction false} ReapedLater(s: State, m: State, o: Outcome)
    requires Ok(s) && s.postOpen && !s.postReady && Ok(m) && Waited(s, m, o)
    ensures o == Returned(0) ==>
              && Ok(m.(postOpen := false, postReady := false))
              && Reaped(s, m.(postOpen := false, postReady := false), Returned(m.postRes))
    ensures o != Returned(0) ==> Reaped(s, m, o)
  {
    if o == Returned(0) {
      ReapedReady(m);
    }
  }

  lemma {:induction false} ReapsKeeps(s: State, es: seq<Event>, tok: nat, timeout: nat, timerStarts: bool)
    requires Ok(s) && s.postOpen
    ensures var w := Reaps(s, es, tok, timeout, timerStarts);
            Ok(w.state) && Reaped(s, w.state, w.outcome)
  {
    if s.postReady {
      ReapedReady(s);
    } else {
      var limit := if timeout > 0 then timeout else 1;
      WaitsKeeps(s, es, tok, limit, timerStarts);
      var w := Waits(s, es, tok, limit, timerStarts);
      ReapedLater(s, w.state, w.outcome);
    }
  }
}
