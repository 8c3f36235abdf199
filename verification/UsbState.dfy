/** The state of the link and what every step keeps of it. */
module UsbState {
  import opened Bytes
  import opened UsbBus
  import opened UsbExchange

  const SMALL_OUT := 0x1370_0000
  const SMALL_IN := 0x1370_0200
  const SMALL_OUT_SIZE := 288
  const SMALL_IN_SIZE := 128

  /** A posted exchange: its request number, its reply buffer, and what that held. */
  datatype Posted = Posted(serial: nat, buf: nat, before: seq<byte>)

  /**
   * Beside the host's variables, the wire and the memory, three records of the past, by request
   * number: results, how each exchange that completed ended; failed, the exchanges whose reply read
   * failed; sources, the number of the request whose answer each of the others got.
   */
  datatype State = State(
    dead: bool, x: Exchange, bus: Bus, mem: Memory,
    results: map<nat, int>, failed: seq<nat>, sources: map<nat, nat>,
    postOpen: bool, postReady: bool, postRes: int, post: Posted)

  predicate Bounces(mem: Memory) {
    SMALL_OUT in mem && |mem[SMALL_OUT]| == SMALL_OUT_SIZE && SMALL_IN in mem && |mem[SMALL_IN]| == SMALL_IN_SIZE
  }

  /** The exchange on the wire has its reply. */
  predicate Received(s: State) { s.bus.landed || (s.x.inDone && s.x.inRes >= 0) }

  /** At most one read and one request are in flight, those of the current exchange. */
  predicate Wired(s: State) {
    && s.bus.outs == (if s.x.busy && !s.x.outDone then 1 else 0)
    && s.bus.ins == (if s.x.busy && !s.x.inDone then [Read(s.x.inBuf, s.x.inCap)] else [])
    && (s.bus.landed ==> s.bus.ins != [])
    && (s.x.busy ==> s.x.inBuf in s.mem && s.x.inCap <= |s.mem[s.x.inBuf]|)
    && (s.x.busy && Received(s) ==> s.bus.taken in s.bus.answers && Got(s.bus) <= s.x.inCap)
    && (s.x.busy && s.x.inDone && s.x.inRes >= 0 ==> s.x.inRes == Got(s.bus))
  }

  /** Every exchange so far either took one answer or failed to; the current one may still do either. */
  predicate Counted(s: State) {
    s.bus.taken + |s.failed| + (if s.x.busy && !Received(s) then 1 else 0) == s.bus.serial
  }

  /** A request on its way belongs to an exchange that waits for it; one that was lost shows as a negative result. */
  predicate Sending(s: State) {
    && (s.bus.sending ==> s.x.busy && !s.x.outDone)
    && (s.x.busy && s.bus.serial in s.bus.lost ==> s.x.outDone && s.x.outRes < 0)
  }

  /** Host and wire agree, and the answers come in order. */
  predicate InStep(s: State) { Line(s.bus) && Tracked(s.bus) && Wired(s) && Sending(s) && Counted(s) }

  /** Exchange k got the adapter's answer j: as many numbers less as reads had failed before it. */
  predicate Shifted(k: nat, j: nat, failed: seq<nat>, answers: map<nat, seq<byte>>) {
    j in answers && j + Below(failed, k) == k
  }

  predicate SourcesOk(sources: map<nat, nat>, results: map<nat, int>, failed: seq<nat>, answers: map<nat, seq<byte>>) {
    && (forall k {:trigger sources[k]} :: k in sources ==> k in results && Shifted(k, sources[k], failed, answers))
    && (forall k {:trigger results[k]} :: k in results && results[k] == 0 ==> k in sources)
  }

  /** A reply read that failed shows in the code of its exchange. */
  predicate FailedOk(s: State) {
    forall i :: 0 <= i < |s.failed| ==> s.failed[i] in s.results && s.results[s.failed[i]] < 0
  }

  predicate ResultsOk(s: State) {
    && (forall k :: k in s.results ==> k <= s.bus.serial) && (s.x.busy ==> s.bus.serial !in s.results)
    && FailedOk(s) && SourcesOk(s.sources, s.results, s.failed, s.bus.answers)
    && (forall k :: k in s.results && s.results[k] == 0 ==> k !in s.bus.lost)
  }

  /** The buffer holds the answer to request k over its earlier contents. */
  predicate HasReply(bus: Bus, mem: Memory, k: nat, buf: nat, before: seq<byte>) {
    k in bus.answers && buf in mem && |bus.answers[k]| <= |before| && mem[buf] == Overlay(before, bus.answers[k])
  }

  /**
   * A posted exchange is on the wire until it completes, and from then on has its result, with the
   * reply in its buffer; without one, nothing is posted and nothing is ready.
   */
  predicate PostOk(s: State) {
    && (!s.postOpen && !s.dead ==> !s.postReady && !(s.x.busy && s.x.isPost))
    && (s.postOpen && !s.postReady ==> FlyingOk(s))
    && (s.postOpen && s.postReady ==> ReadyOk(s))
    && (s.postOpen ==> s.post.buf in s.mem && s.post.buf != SMALL_IN && s.post.buf != SMALL_OUT)
  }

  predicate FlyingOk(s: State) {
    && s.x.busy && s.x.isPost && s.post.serial == s.bus.serial && s.post.buf == s.x.inBuf
    && |s.post.before| >= s.x.inCap
    && if Received(s) then HasReply(s.bus, s.mem, s.bus.taken, s.post.buf, s.post.before)
       else At(s.mem, s.post.buf) == s.post.before
  }

  predicate ReadyOk(s: State) {
    && !(s.x.busy && s.x.isPost)
    && s.post.serial in s.results && s.postRes == s.results[s.post.serial]
    && (s.x.busy ==> s.x.inBuf != s.post.buf && s.post.serial < s.bus.serial)
    && (s.postRes == 0 ==>
          && s.post.serial in s.sources
          && HasReply(s.bus, s.mem, s.sources[s.post.serial], s.post.buf, s.post.before))
  }

  predicate Ok(s: State) { InStep(s) && Bounces(s.mem) && ResultsOk(s) && PostOk(s) }

  /** The state after an event. */
  function Happened(e: Event, s: State): (r: State) {
    s.(x := Absorb(s.x, MessageOf(e, s.bus)), bus := After(e, s.bus), mem := MemoryAfter(e, s.bus, s.mem))
  }

  /** Buffers stay what and as long as they are. */
  predicate SameShape(was: Memory, now: Memory) {
    was.Keys == now.Keys && forall b :: b in was ==> |now[b]| == |was[b]|
  }

  /** The answer that is next in line. */
  lemma {:induction false} NextAnswer(bus: Bus)
    requires Line(bus)
    ensures bus.unread != [] ==> bus.taken + 1 in bus.answers && bus.answers[bus.taken + 1] == bus.unread[0].data
    ensures bus.waiting != [] ==> bus.waiting[0] == bus.taken + |bus.unread| + 1 && bus.waiting[0] !in bus.answers
  {
    if bus.unread != [] {
      assert AnswerAt(bus.unread[0], bus.taken + 1 + 0, bus.answers);
    }
  }

  lemma {:induction false} WiredLand(s: State)
    requires Wired(s) && Counted(s) && CanLand(s.bus)
    requires s.bus.taken + 1 in s.bus.answers && s.bus.answers[s.bus.taken + 1] == s.bus.unread[0].data
    ensures Wired(Happened(Land, s)) && Counted(Happened(Land, s)) && SameShape(s.mem, Happened(Land, s).mem)
  {
    var r := Happened(Land, s);
    assert r.x == s.x && r.mem == s.mem[s.x.inBuf := Overlay(s.mem[s.x.inBuf], s.bus.unread[0].data)];
  }

  lemma {:induction false} WiredAnswer(data: seq<byte>, s: State)
    requires Wired(s) && Counted(s) && (s.bus.waiting != [] ==> s.bus.waiting[0] > s.bus.taken)
    ensures Wired(Happened(Answer(data), s)) && Counted(Happened(Answer(data), s))
  {
    AnswerMoves(data, s.bus);
    WiredAlike(s, Happened(Answer(data), s));
  }

  lemma {:induction false} AnswerMoves(data: seq<byte>, bus: Bus)
    requires bus.waiting != [] ==> bus.waiting[0] > bus.taken
    ensures var r := After(Answer(data), bus);
            && r.outs == bus.outs && r.ins == bus.ins && r.landed == bus.landed && r.taken == bus.taken
            && r.serial == bus.serial && Got(r) == Got(bus) && (bus.taken in bus.answers ==> bus.taken in r.answers)
  {
  }

  lemma {:induction false} WiredAlike(s: State, r: State)
    requires Wired(s) && Counted(s) && r.x == s.x && r.mem == s.mem && r.failed == s.failed
    requires r.bus.outs == s.bus.outs && r.bus.ins == s.bus.ins && r.bus.landed == s.bus.landed
    requires r.bus.taken == s.bus.taken && r.bus.serial == s.bus.serial && Got(r.bus) == Got(s.bus)
    requires s.bus.taken in s.bus.answers ==> s.bus.taken in r.bus.answers
    ensures Wired(r) && Counted(r)
  {
  }

  lemma {:induction false} WiredDone(e: Event, s: State)
    requires Wired(s) && Counted(s) && !e.Answer? && !e.Land?
    ensures Wired(Happened(e, s)) && Counted(Happened(e, s)) && Happened(e, s).x.busy == s.x.busy
  {
    var r := Happened(e, s);
    assert r.mem == s.mem && r.bus.taken == s.bus.taken && r.bus.answers == s.bus.answers;
  }

  lemma {:induction false} WiredKept(e: Event, s: State)
    requires Wired(s) && Counted(s)
    requires s.bus.unread != [] ==>
      s.bus.taken + 1 in s.bus.answers && s.bus.answers[s.bus.taken + 1] == s.bus.unread[0].data
    requires s.bus.waiting != [] ==> s.bus.waiting[0] > s.bus.taken
    ensures Wired(Happened(e, s)) && Counted(Happened(e, s))
    ensures SameShape(s.mem, Happened(e, s).mem) && Happened(e, s).x.busy == s.x.busy
  {
    if e.Answer? {
      WiredAnswer(e.data, s);
    } else if !e.Land? {
      WiredDone(e, s);
    } else if CanLand(s.bus) {
      WiredLand(s);
    } else {
      assert Happened(e, s) == s;
    }
  }

  lemma {:induction false} SendingKept(e: Event, s: State)
    requires Sending(s) && Wired(s) && Tracked(s.bus)
    ensures Sending(Happened(e, s)) && (!s.x.busy ==> After(e, s.bus).lost == s.bus.lost)
  {
    assert s.bus.sending ==> s.bus.serial !in s.bus.lost;
  }

  lemma {:induction false} StepKept(e: Event, s: State)
    requires InStep(s)
    ensures InStep(Happened(e, s)) && SameShape(s.mem, Happened(e, s).mem) && Happened(e, s).x.busy == s.x.busy
    ensures History(s.bus, Happened(e, s).bus) && (!s.x.busy ==> Happened(e, s).bus.lost == s.bus.lost)
  {
    LineKept(e, s.bus);
    TrackedKept(e, s.bus);
    HistoryKept(e, s.bus);
    NextAnswer(s.bus);
    WiredKept(e, s);
    SendingKept(e, s);
  }

  /** The same exchange, some completion records later. */
  predicate SameExchange(x: Exchange, y: Exchange) {
    y == x.(outDone := y.outDone, outRes := y.outRes, inDone := y.inDone, inRes := y.inRes) && (x.inDone ==> y.inDone)
  }

  /** Between the two states nothing landed, or the next answer in line landed in the reply buffer. */
  predicate Landing(s: State, r: State) {
    if r.bus.taken == s.bus.taken then r.mem == s.mem && Received(r) == Received(s)
    else
      && r.bus.taken == s.bus.taken + 1 && s.x.busy && !s.x.inDone && !Received(s) && Received(r)
      && r.bus.taken in r.bus.answers
      && r.mem == s.mem[s.x.inBuf := Overlay(At(s.mem, s.x.inBuf), r.bus.answers[r.bus.taken])]
  }

  /** Only the wire moved. */
  predicate Moved(s: State, r: State) {
    && r == s.(x := r.x, bus := r.bus, mem := r.mem)
    && SameExchange(s.x, r.x) && History(s.bus, r.bus) && Landing(s, r)
    && (!s.x.busy ==> r.bus.lost == s.bus.lost)
  }

  lemma {:induction false} MovedOne(e: Event, s: State)
    requires InStep(s)
    ensures Moved(s, Happened(e, s))
  {
    StepKept(e, s);
    NextAnswer(s.bus);
    EventLands(e, s);
  }

  lemma {:induction false} EventLands(e: Event, s: State)
    requires Wired(s)
    requires s.bus.unread != [] ==>
      s.bus.taken + 1 in s.bus.answers && s.bus.answers[s.bus.taken + 1] == s.bus.unread[0].data
    ensures SameExchange(s.x, Happened(e, s).x) && Landing(s, Happened(e, s))
  {
  }

  lemma {:induction false} MovedNot(s: State)
    ensures Moved(s, s)
  {
  }

  lemma {:induction false} MovedOn(s: State, m: State, r: State)
    requires Moved(s, m) && Moved(m, r)
    ensures Moved(s, r)
  {
  }

  lemma {:induction false} ResultsMoved(s: State, r: State)
    requires ResultsOk(s) && Moved(s, r)
    ensures ResultsOk(r)
  {
  }

  lemma {:induction false} PostMoved(s: State, r: State)
    requires PostOk(s) && Moved(s, r) && Wired(s) && Wired(r) && r.x.busy == s.x.busy && ResultsOk(s)
    ensures PostOk(r)
  {
  }

  /** Nothing that happens on the wire disturbs the link's state, nor a reply that waits to be reaped. */
  lemma {:induction false} EventKeeps(e: Event, s: State)
    requires Ok(s)
    ensures Ok(Happened(e, s)) && Moved(s, Happened(e, s)) && Happened(e, s).x.busy == s.x.busy
  {
    var r := Happened(e, s);
    StepKept(e, s);
    MovedOne(e, s);
    ResultsMoved(s, r);
    PostMoved(s, r);
  }

  predicate Done(s: State) { s.x.outDone && s.x.inDone }

  /** Both completions are in: the exchange leaves the wire, a posted one with its result. */
  function Completed(s: State): (r: State) {
    var x := s.x.(busy := false, isPost := false);
    var t := s.(x := x, results := s.results[s.bus.serial := Result(x)],
                failed := if x.inRes < 0 then s.failed + [s.bus.serial] else s.failed,
                sources := if x.inRes < 0 then s.sources else s.sources[s.bus.serial := s.bus.taken]);
    if s.x.isPost then t.(postRes := Result(x), postReady := true) else t
  }

  /** An exchange that took an answer. */
  lemma {:induction false} SourceAdded(sources: map<nat, nat>, results: map<nat, int>, failed: seq<nat>,
                                       answers: map<nat, seq<byte>>, k: nat, j: nat, res: int)
    requires SourcesOk(sources, results, failed, answers) && k !in results && Shifted(k, j, failed, answers)
    ensures SourcesOk(sources[k := j], results[k := res], failed, answers)
  {
  }

  /** An exchange that took none. */
  lemma {:induction false} SourceFailed(sources: map<nat, nat>, results: map<nat, int>, failed: seq<nat>,
                                        answers: map<nat, seq<byte>>, k: nat, res: int)
    requires SourcesOk(sources, results, failed, answers) && k !in results && res != 0 && forall i :: i in results ==>
      i <= k
    ensures SourcesOk(sources, results[k := res], failed + [k], answers)
  {
    forall i {:trigger sources[i]} | i in sources
      ensures Shifted(i, sources[i], failed + [k], answers)
    {
      BelowSnoc(failed, k, i);
    }
  }

  lemma {:induction false} CompletionSources(s: State)
    requires ResultsOk(s) && s.x.busy && Done(s) && Counted(s) && (s.x.inRes >= 0 ==> s.bus.taken in s.bus.answers)
    requires s.x.inRes < 0 ==> !s.bus.landed
    ensures var r := Completed(s);
            SourcesOk(r.sources, r.results, r.failed, r.bus.answers)
  {
    var k, res := s.bus.serial, Result(s.x.(busy := false, isPost := false));
    if s.x.inRes >= 0 {
      AllBelow(s.failed, k);
      SourceAdded(s.sources, s.results, s.failed, s.bus.answers, k, s.bus.taken, res);
    } else {
      SourceFailed(s.sources, s.results, s.failed, s.bus.answers, k, res);
    }
  }

  lemma {:induction false} CompletionFailed(s: State)
    requires ResultsOk(s) && s.x.busy
    ensures FailedOk(Completed(s))
  {
  }

  lemma {:induction false} CompletionKeeps(s: State)
    requires Ok(s) && s.x.busy && Done(s)
    ensures Ok(Completed(s))
  {
    CompletionSources(s);
    CompletionFailed(s);
  }

  /** Timer tokens count up, in 16 bits. */
  function NextToken(tok: nat, timeout: nat): (r: nat) { if timeout > 0 then (tok + 1) % 0x1_0000 else tok }

  /** The end of the receive loop: the state, the events left, and whether the timer ended it. */
  datatype Drain = Drain(state: State, rest: seq<Event>, expired: bool)

  /** Events happen until both completions are in, the timer token comes, or nothing more does. */
  function Drained(s: State, es: seq<Event>, token: nat, armed: bool): (d: Drain)
    decreases |es|
  {
    if Done(s) || es == [] then Drain(s, es, false)
    else if armed && es[0] == Timer(token) then Drain(s, es[1..], true)
    else Drained(Happened(es[0], s), es[1..], token, armed)
  }

  lemma {:induction false} DrainedKeeps(s: State, es: seq<Event>, token: nat, armed: bool)
    requires Ok(s) && s.x.busy
    ensures var d := Drained(s, es, token, armed);
            && Ok(d.state) && d.state.x.busy && Moved(s, d.state)
            && (d.expired ==> !Done(d.state)) && (!d.expired && !Done(d.state) ==> d.rest == [])
    decreases |es|
  {
    if Done(s) || es == [] || (armed && es[0] == Timer(token)) {
      MovedNot(s);
    } else {
      EventKeeps(es[0], s);
      DrainedKeeps(Happened(es[0], s), es[1..], token, armed);
      MovedOn(s, Happened(es[0], s), Drained(s, es, token, armed).state);
    }
  }

  /** The wait takes a prefix of the events, and only its own token, as the last one, ends it early. */
  lemma {:induction false} DrainedTakes(s: State, es: seq<Event>, token: nat, armed: bool)
    ensures var d := Drained(s, es, token, armed);
            Took(es, d.rest, token, armed, d.expired)
    decreases |es|
  {
    if !Done(s) && es != [] && !(armed && es[0] == Timer(token)) {
      DrainedTakes(Happened(es[0], s), es[1..], token, armed);
      var d := Drained(s, es, token, armed);
      var n := |es| - |d.rest|;
      assert es[n..] == es[1..][n - 1..];
      forall i | 0 <= i < n - (if d.expired then 1 else 0)
        ensures armed ==> es[i] != Timer(token)
      {
        assert i > 0 ==> es[i] == es[1..][i - 1];
      }
    }
  }

  /** A token that is not the awaited one makes no difference, wherever it comes. */
  lemma {:induction false} StaleIgnored(s: State, a: seq<Event>, stale: nat, b: seq<Event>, token: nat, armed: bool)
    requires stale != token || !armed
    ensures var d, e := Drained(s, a + [Timer(stale)] + b, token, armed), Drained(s, a + b, token, armed);
            d.state == e.state && d.expired == e.expired
    decreases |a|
  {
    var es := a + [Timer(stale)] + b;
    if a == [] {
      assert es == [Timer(stale)] + b && a + b == b;
      assert es[1..] == b && Happened(Timer(stale), s) == s;
    } else if !Done(s) && !(armed && a[0] == Timer(token)) {
      assert es[1..] == a[1..] + [Timer(stale)] + b && (a + b)[1..] == a[1..] + b;
      StaleIgnored(Happened(a[0], s), a[1..], stale, b, token, armed);
    }
  }

  /** A call: the state it leaves, the events left, the last timer token, and the outcome. */
  datatype Step = Step(state: State, rest: seq<Event>, tok: nat, outcome: Outcome)

  /** xs_wait: nothing to do on a free wire; otherwise the exchange ends, or stays on the wire. */
  function Waits(s: State, es: seq<Event>, tok: nat, timeout: nat, timerStarts: bool): (w: Step) {
    if !s.x.busy then Step(s, es, tok, Returned(0))
    else
      var next := NextToken(tok, timeout);
      Settles(Drained(s, es, next, timeout > 0 && timerStarts), next)
  }

  /** What follows the receive loop. */
  function Settles(d: Drain, tok: nat): (w: Step) {
    if Done(d.state) then Step(Completed(d.state), d.rest, tok, Returned(0))
    else Step(d.state, d.rest, tok, if d.expired then Returned(TIMEOUT) else Blocked)
  }

  /** The answer next in line landed during the wait, or the memory is as it was. */
  predicate MemoryMoved(s: State, r: State) {
    if r.bus.taken == s.bus.taken then r.mem == s.mem
    else
      && r.bus.taken == s.bus.taken + 1 && s.x.busy && !s.x.inDone && !Received(s) && r.bus.taken in r.bus.answers
      && r.mem == s.mem[s.x.inBuf := Overlay(At(s.mem, s.x.inBuf), r.bus.answers[r.bus.taken])]
  }

  /** What a wait leaves: the same exchange still on the wire, or completed with its own result. */
  predicate Waited(s: State, r: State, o: Outcome) {
    && History(s.bus, r.bus) && MemoryMoved(s, r)
    && r.dead == s.dead && r.postOpen == s.postOpen && r.post == s.post
    && r.x.outLen == s.x.outLen && r.x.inBuf == s.x.inBuf && r.x.inCap == s.x.inCap
    && if o == Returned(0) then
         && !r.x.busy
         && r.results == s.results[s.bus.serial := Result(r.x)]
         && r.failed == (if r.x.inRes < 0 then s.failed + [s.bus.serial] else s.failed)
         && (r.x.inRes >= 0 ==>
               && r.bus.taken in r.bus.answers && r.x.inRes == |r.bus.answers[r.bus.taken]| <= r.x.inCap
               && r.bus.serial in r.sources && r.sources[r.bus.serial] == r.bus.taken)
         && (r.x.inRes < 0 ==> r.bus.taken == s.bus.taken)
         && (r.postReady == if s.x.isPost then true else s.postReady)
       else
         && (o == Returned(TIMEOUT) || o == Blocked)
         && r.x.busy && r.x.isPost == s.x.isPost
         && r.results == s.results && r.failed == s.failed && r.postReady == s.postReady && r.postRes == s.postRes
  }

  lemma {:induction false} CompletionEnds(s: State, d: State)
    requires Ok(s) && s.x.busy && Ok(d) && d.x.busy && Done(d) && Moved(s, d)
    ensures Waited(s, Completed(d), Returned(0))
  {
  }

  lemma {:induction false} StillWaits(s: State, d: State, o: Outcome)
    requires s.x.busy && d.x.busy && Moved(s, d) && (o == Returned(TIMEOUT) || o == Blocked)
    ensures Waited(s, d, o)
  {
  }

  lemma {:induction false} SettlesKeeps(s: State, d: Drain, tok: nat)
    requires Ok(s) && s.x.busy && Ok(d.state) && d.state.x.busy && Moved(s, d.state)
    ensures var w := Settles(d, tok);
            Ok(w.state) && Waited(s, w.state, w.outcome)
  {
    if Done(d.state) {
      CompletionKeeps(d.state);
      CompletionEnds(s, d.state);
    } else {
      StillWaits(s, d.state, Settles(d, tok).outcome);
    }
  }

  /** A wait keeps the state sound; it leaves the same exchange on the wire, or completed. */
  lemma {:induction false} WaitsKeeps(s: State, es: seq<Event>, tok: nat, timeout: nat, timerStarts: bool)
    requires Ok(s)
    ensures var w := Waits(s, es, tok, timeout, timerStarts);
            Ok(w.state) && (s.x.busy ==> Waited(s, w.state, w.outcome))
  {
    if s.x.busy {
      var next, armed := NextToken(tok, timeout), timeout > 0 && timerStarts;
      DrainedKeeps(s, es, next, armed);
      SettlesKeeps(s, Drained(s, es, next, armed), next);
    }
  }

  /** The two transfers of a new exchange are handed to the bus; `out` < 0 when the request is refused. */
  function Started(s: State, request: seq<byte>, buf: nat, cap: nat, isPost: bool, out: int): (r: State) {
    var k := s.bus.serial + 1;
    var b := s.bus.(ins := s.bus.ins + [Read(buf, cap)], serial := k, asked := s.bus.asked[k := request]);
    var x := Exchange(true, isPost, false, false, 0, 0, |request|, buf, cap);
    if out < 0 then s.(x := x.(outDone := true, outRes := out), bus := b.(lost := b.lost + [k]), dead := true)
    else s.(x := x, bus := b.(outs := b.outs + 1, sending := true))
  }

  /** The reply read is refused: nothing goes on the wire. */
  function Refused(s: State, request: seq<byte>, buf: nat, cap: nat, isPost: bool): (r: State) {
    s.(x := Exchange(false, isPost, false, false, 0, 0, |request|, buf, cap))
  }

  /** xs_post: the state it leaves and its code. */
  function Launched(s: State, request: seq<byte>, buf: nat, cap: nat, isPost: bool, calls: Calls): (r: (State, int)) {
    if s.dead then (s, DEAD)
    else if s.x.busy then (s, BUSY)
    else if calls.inStart < 0 then (Refused(s, request, buf, cap, isPost), calls.inStart)
    else (Started(s, request, buf, cap, isPost, calls.outStart), if calls.outStart < 0 then DEAD else 0)
  }

  /** The adapter has not heard of a new exchange. */
  lemma {:induction false} LineSame(bus: Bus, other: Bus)
    requires Line(bus)
    requires other == bus.(ins := other.ins, outs := other.outs, sending := other.sending, lost := other.lost,
                           serial := other.serial, asked := other.asked)
    ensures Line(other)
  {
  }

  lemma {:induction false} TrackedStart(s: State, request: seq<byte>, buf: nat, cap: nat, isPost: bool, out: int)
    requires Tracked(s.bus) && Sending(s) && !s.x.busy
    ensures var r := Started(s, request, buf, cap, isPost, out);
            Tracked(r.bus) && Sending(r)
  {
    var b := Started(s, request, buf, cap, isPost, out).bus;
    if out < 0 {
      TrackedRefused(s.bus.heard, s.bus.lost, s.bus.origin, s.bus.serial);
      SameTracks(b, s.bus.heard, s.bus.lost + [s.bus.serial + 1], s.bus.origin, s.bus.serial + 1, false);
    } else {
      TrackedSending(s.bus.heard, s.bus.lost, s.bus.origin, s.bus.serial);
      SameTracks(b, s.bus.heard, s.bus.lost, s.bus.origin, s.bus.serial + 1, true);
    }
  }

  lemma {:induction false} SameTracks(b: Bus, heard: nat, lost: seq<nat>, origin: map<nat, nat>, serial: nat,
                                      sending: bool)
    requires b.heard == heard && b.lost == lost && b.origin == origin && b.serial == serial && b.sending == sending
    requires TrackedBy(heard, lost, origin, serial, sending)
    ensures Tracked(b)
  {
  }

  lemma {:induction false} WiredStart(s: State, request: seq<byte>, buf: nat, cap: nat, isPost: bool, out: int)
    requires Wired(s) && Counted(s) && !s.x.busy && buf in s.mem && cap <= |s.mem[buf]|
    ensures var r := Started(s, request, buf, cap, isPost, out);
            Wired(r) && Counted(r) && !Received(r)
  {
  }

  lemma {:induction false} StartSteps(s: State, request: seq<byte>, buf: nat, cap: nat, isPost: bool, out: int)
    requires InStep(s) && !s.x.busy && !s.dead && buf in s.mem && cap <= |s.mem[buf]|
    ensures InStep(Started(s, request, buf, cap, isPost, out)) && !Received(Started(s, request, buf, cap, isPost, out))
  {
    LineSame(s.bus, Started(s, request, buf, cap, isPost, out).bus);
    TrackedStart(s, request, buf, cap, isPost, out);
    WiredStart(s, request, buf, cap, isPost, out);
  }

  lemma {:induction false} RefusedKeeps(s: State, request: seq<byte>, buf: nat, cap: nat, isPost: bool)
    requires Ok(s) && !s.x.busy
    ensures Ok(Refused(s, request, buf, cap, isPost))
  {
  }

  lemma {:induction false} StartKeeps(s: State, request: seq<byte>, buf: nat, cap: nat, out: int)
    requires Ok(s) && !s.x.busy && !s.dead && buf in s.mem && cap <= |s.mem[buf]| && (s.postOpen ==> buf != s.post.buf)
    ensures Ok(Started(s, request, buf, cap, false, out))
  {
    StartSteps(s, request, buf, cap, false, out);
  }

  /** A post that is on the wire. */
  function Opened(s: State): (r: State) {
    s.(postOpen := true, postReady := false, post := Posted(s.bus.serial, s.x.inBuf, At(s.mem, s.x.inBuf)))
  }

  lemma {:induction false} PostKeeps(s: State, request: seq<byte>, buf: nat, cap: nat, out: int)
    requires Ok(s) && !s.x.busy && !s.dead && !s.postOpen && buf in s.mem && cap <= |s.mem[buf]|
    requires buf != SMALL_IN && buf != SMALL_OUT
    ensures out >= 0 ==> Ok(Opened(Started(s, request, buf, cap, true, out)))
    ensures out < 0 ==> Ok(Started(s, request, buf, cap, true, out))
  {
    StartSteps(s, request, buf, cap, true, out);
  }

  /** The host writes into a buffer: any but that of a posted exchange, one an exchange still reads into included. */
  lemma {:induction false} TouchKeeps(s: State, b: nat, c: seq<byte>)
    requires Ok(s) && b in s.mem && |c| == |s.mem[b]| && (s.postOpen ==> b != s.post.buf)
    ensures Ok(s.(mem := s.mem[b := c]))
  {
  }

  /** Reaping closes the posted exchange. */
  lemma {:induction false} ReapKeeps(s: State)
    requires Ok(s) && s.postOpen && s.postReady
    ensures Ok(s.(postOpen := false, postReady := false))
  {
  }
}
