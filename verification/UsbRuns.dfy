/** Which reply an exchange gets, and what its buffer holds: the exact conditions, and runs that fail them. */
module UsbRuns {
  import opened Bytes
  import opened UsbBus
  import opened UsbExchange
  import opened UsbState
  import opened UsbTransfer

  /** The answer exchange k got is the one to request m. */
  predicate GotReplyOf(s: State, k: nat, m: nat) {
    k in s.sources && s.sources[k] in s.bus.origin && s.bus.origin[s.sources[k]] == m
  }

  predicate GotOwn(s: State, k: nat) { GotReplyOf(s, k, k) }

  lemma {:induction false} BelowStep(s: seq<nat>, k: nat)
    requires Ascending(s)
    ensures Below(s, k + 1) == Below(s, k) + if k in s then 1 else 0
  {
    if s != [] {
      var front, last := s[..|s| - 1], s[|s| - 1];
      BelowStep(front, k);
      assert s == front + [last];
      assert forall i :: 0 <= i < |front| ==> s[i] < last;
    }
  }

  /** Between two numbers of which the first was not lost, not all were. */
  lemma {:induction false} BelowGap(s: seq<nat>, k: nat, m: nat)
    requires Ascending(s) && k < m && k !in s
    ensures Below(s, m) < Below(s, k) + (m - k)
  {
    if m == k + 1 {
      BelowStep(s, k);
    } else {
      BelowGap(s, k, m - 1);
      BelowStep(s, m - 1);
    }
  }

  /**
   * Of all exchanges that ended well, exactly those got their own reply before which as many requests were
   * lost as reads failed; on a wire that loses no request, those before which no read failed.
   */
  lemma {:induction false} OwnReplyExactly(s: State, k: nat)
    requires Ok(s) && k in s.results && s.results[k] == 0
    ensures k in s.sources && s.sources[k] in s.bus.answers
    ensures GotOwn(s, k) <==> Below(s.bus.lost, k) == Below(s.failed, k)
    ensures s.bus.lost == [] ==> (GotOwn(s, k) <==> forall i :: 0 <= i < |s.failed| ==> s.failed[i] >= k)
  {
    var a := s.sources[k];
    assert Shifted(k, a, s.failed, s.bus.answers);
    var m := s.bus.origin[a];
    assert OriginAt(a, m, s.bus.lost, s.bus.serial);
    if k < m {
      BelowGap(s.bus.lost, k, m);
    } else if m < k {
      BelowGap(s.bus.lost, m, k);
    }
    NoneBelow(s.failed, k);
  }

  lemma {:induction false} NoneBelow(s: seq<nat>, k: nat)
    ensures Below(s, k) == 0 <==> forall i :: 0 <= i < |s| ==> s[i] >= k
  {
    if s != [] {
      NoneBelow(s[..|s| - 1], k);
      assert forall i :: 0 <= i < |s| - 1 ==> s[..|s| - 1][i] == s[i];
    }
  }

  /**
   * A blocking exchange that returns 0 brings the reply to its own request iff as many requests were lost as reads
   * failed.
   */
  lemma {:induction false} TransferOwnExactly(s: State, es: seq<Event>, tok: nat, job: Job, timeout: nat, calls: Calls)
    requires Ok(s) && Usable(s, job)
    requires Transfers(s, es, tok, job, timeout, calls).outcome == Returned(0)
    ensures var t := Transfers(s, es, tok, job, timeout, calls).state;
            && Answered(s, t, job)
            && (GotOwn(t, t.bus.serial) <==> |t.bus.lost| == |t.failed|)
            && (!s.x.busy ==> t.failed == s.failed)
  {
    TransfersKeeps(s, es, tok, job, timeout, calls);
    var t := Transfers(s, es, tok, job, timeout, calls).state;
    OwnLast(t);
    if !s.x.busy {
      ServesKeeps(s, es, tok, job, timeout, calls);
    }
  }

  /** The last exchange, when it ended well. */
  lemma {:induction false} OwnLast(t: State)
    requires Ok(t) && t.bus.serial in t.results && t.results[t.bus.serial] == 0
    ensures GotOwn(t, t.bus.serial) <==> |t.bus.lost| == |t.failed|
  {
    OwnReplyExactly(t, t.bus.serial);
    AllBelow(t.bus.lost, t.bus.serial);
    AllBelow(t.failed, t.bus.serial);
  }

  lemma {:induction false} DrainedStep(s: State, e: Event, es: seq<Event>, token: nat, armed: bool)
    requires !Done(s) && !e.Timer?
    ensures Drained(s, [e] + es, token, armed) == Drained(Happened(e, s), es, token, armed)
  {
    assert ([e] + es)[1..] == es;
  }

  lemma {:induction false} DrainedTwo(s: State, m: State, t: State, a: Event, b: Event, es: seq<Event>, token: nat,
                                      armed: bool)
    requires !a.Timer? && !b.Timer? && m == Happened(a, s) && t == Happened(b, m) && !Done(s) && !Done(m)
    ensures Drained(s, [a, b] + es, token, armed) == Drained(t, es, token, armed)
  {
    assert [a, b] + es == [a] + ([b] + es);
    DrainedStep(s, a, [b] + es, token, armed);
    DrainedStep(m, b, es, token, armed);
  }

  /** The request arrives, the adapter answers, the answer next in line lands, and both completions come. */
  function Course(n: int, data: seq<byte>): (es: seq<Event>) { [Arrive, Answer(data), Land, OutDone(n), InDone] }

  /** The wire when the request has arrived and the adapter has answered once. */
  function Spoken(bus: Bus, data: seq<byte>): (r: Bus) { After(Answer(data), After(Arrive, bus)) }

  /** The answers not read yet by then. */
  function Queue(bus: Bus, data: seq<byte>): (r: seq<Reply>) { Spoken(bus, data).unread }

  /** An exchange still waiting for its reply, with an answer to come that fits its buffer. */
  predicate Expects(s: State, data: seq<byte>) {
    && s.x.busy && !s.x.inDone && !s.bus.landed
    && Queue(s.bus, data) != [] && |Queue(s.bus, data)[0].data| <= s.x.inCap
  }

  lemma {:induction false} CourseSpeaks(s: State, data: seq<byte>)
    requires Ok(s)
    ensures var m := Happened(Answer(data), Happened(Arrive, s));
            && Ok(m) && m.x == s.x && m.bus == Spoken(s.bus, data) && !m.bus.sending
            && m.bus.landed == s.bus.landed && m.bus.outs == s.bus.outs && m.bus.ins == s.bus.ins
            && m.bus.taken == s.bus.taken && m.bus.lost == s.bus.lost
  {
    EventKeeps(Arrive, s);
    EventKeeps(Answer(data), Happened(Arrive, s));
  }

  lemma {:induction false} CourseLands(s: State, data: seq<byte>)
    requires Ok(s) && Expects(s, data)
    ensures var t := Happened(Land, Happened(Answer(data), Happened(Arrive, s)));
            && Ok(t) && t.x == s.x && t.bus.landed && !t.bus.sending && t.bus.outs == s.bus.outs
            && t.bus.ins == s.bus.ins
            && t.bus.ins != [] && t.bus.lost == s.bus.lost
            && t.bus.unread == Queue(s.bus, data)[1..]
            && t.bus.taken == s.bus.taken + 1 && t.bus.taken in t.bus.answers
            && t.bus.answers[t.bus.taken] == Queue(s.bus, data)[0].data
  {
    var m := Happened(Answer(data), Happened(Arrive, s));
    CourseSpeaks(s, data);
    NextAnswer(m.bus);
    EventKeeps(Land, m);
  }

  lemma {:induction false} CourseEnds(s: State, n: int)
    requires Ok(s) && s.x.busy && !s.x.inDone && s.bus.landed && s.bus.ins != [] && !s.bus.sending
    ensures var t := Happened(InDone, Happened(OutDone(n), s));
            && Done(t) && t.x.inRes == Got(s.bus) && t.x.outRes == (if s.x.outDone then s.x.outRes else n)
            && t.x.outLen == s.x.outLen && t.bus.lost == s.bus.lost
            && t.bus.unread == s.bus.unread && t.bus.taken == s.bus.taken
            && t.bus.answers == s.bus.answers
            && !Done(Happened(OutDone(n), s))
  {
  }

  /** What the course of an exchange leaves. */
  predicate Ended(s: State, t: State, n: int, data: seq<byte>) {
    && t.x.inRes >= 0 && t.x.outRes == (if s.x.outDone then s.x.outRes else n) && t.x.outLen == s.x.outLen
    && t.bus.taken == s.bus.taken + 1 && Queue(s.bus, data) != []
    && t.bus.unread == Queue(s.bus, data)[1..] && t.bus.lost == s.bus.lost
    && t.bus.taken in t.bus.answers && t.bus.answers[t.bus.taken] == Queue(s.bus, data)[0].data
  }

  /** None of the five events ends the exchange but the last. */
  lemma {:induction false} CourseDrains(s: State, n: int, data: seq<byte>, es: seq<Event>, token: nat, armed: bool)
    requires Ok(s) && Expects(s, data)
    ensures var t := Happened(Land, Happened(Answer(data), Happened(Arrive, s)));
            Drained(s, Course(n, data) + es, token, armed)
            == Drained(Happened(InDone, Happened(OutDone(n), t)), es, token, armed)
  {
    var a := Happened(Arrive, s);
    var b := Happened(Answer(data), a);
    var c := Happened(Land, b);
    var d := Happened(OutDone(n), c);
    CourseLands(s, data);
    CourseEnds(c, n);
    assert Course(n, data) + es == [Arrive, Answer(data)] + ([Land, OutDone(n)] + ([InDone] + es));
    DrainedTwo(s, a, b, Arrive, Answer(data), [Land, OutDone(n)] + ([InDone] + es), token, armed);
    DrainedTwo(b, c, d, Land, OutDone(n), [InDone] + es, token, armed);
    DrainedStep(d, InDone, es, token, armed);
  }

  lemma {:induction false} DrainedCourse(s: State, n: int, data: seq<byte>, es: seq<Event>, token: nat, armed: bool)
    requires Ok(s) && Expects(s, data)
    ensures var d := Drained(s, Course(n, data) + es, token, armed);
            Done(d.state) && d.rest == es && Ended(s, d.state, n, data)
  {
    CourseLands(s, data);
    var t := Happened(Land, Happened(Answer(data), Happened(Arrive, s)));
    CourseEnds(t, n);
    CourseDrains(s, n, data, es, token, armed);
  }

  /** A wait during the course of an exchange completes it. */
  lemma {:induction false} WaitsCourse(s: State, n: int, data: seq<byte>, es: seq<Event>, tok: nat, timeout: nat,
                                       timerStarts: bool)
    requires Ok(s) && Expects(s, data)
    ensures var w := Waits(s, Course(n, data) + es, tok, timeout, timerStarts);
            && w.outcome == Returned(0) && w.rest == es && !w.state.x.busy && Ok(w.state)
            && Waited(s, w.state, w.outcome)
            && Ended(s, w.state, n, data)
  {
    DrainedCourse(s, n, data, es, NextToken(tok, timeout), timeout > 0 && timerStarts);
    WaitsKeeps(s, Course(n, data) + es, tok, timeout, timerStarts);
  }

  /** The answer an exchange over this wire gets when the adapter gives this one more. */
  function Upcoming(bus: Bus, data: seq<byte>): (r: seq<byte>) { if bus.unread == [] then data else bus.unread[0].data }

  predicate Willing(calls: Calls) { calls.inStart >= 0 && calls.outStart >= 0 }

  /** The course of the exchange the job starts. */
  function JobCourse(s: State, job: Job, data: seq<byte>): (es: seq<Event>) {
    Course(|Framed(Text(s.mem, job.tx, job.txLen))|, data)
  }

  lemma {:induction false} TripCourse(s: State, request: seq<byte>, buf: nat, cap: nat, data: seq<byte>, tok: nat,
                                      timeout: nat, calls: Calls)
    requires Ok(s) && !s.x.busy && !s.dead && buf in s.mem && cap <= |s.mem[buf]| && (s.postOpen ==> buf != s.post.buf)
    requires Willing(calls) && |Upcoming(s.bus, data)| <= cap
    ensures var w := RoundTrips(s, Course(|request|, data), tok, request, buf, cap, timeout, calls);
            && w.outcome == Returned(0) && w.state.bus.lost == s.bus.lost
            && w.state.bus.taken == s.bus.taken + 1 && w.state.bus.taken in w.state.bus.answers
            && w.state.bus.answers[w.state.bus.taken] == Upcoming(s.bus, data)
  {
    StartKeeps(s, request, buf, cap, calls.outStart);
    assert Course(|request|, data) + [] == Course(|request|, data);
    WaitsCourse(Started(s, request, buf, cap, false, calls.outStart), |request|, data, [], tok, timeout,
      calls.secondTimer);
  }

  /** An exchange over a free wire that runs its course returns 0, with the answer next in line. */
  lemma {:induction false} ServesCourse(s: State, data: seq<byte>, tok: nat, job: Job, timeout: nat, calls: Calls)
    requires Ok(s) && !s.x.busy && !s.dead && Usable(s, job) && Fits(job) && Willing(calls)
    requires |Upcoming(s.bus, data)| <= ReplyRoom(job)
    ensures var w := Serves(s, JobCourse(s, job, data), tok, job, timeout, calls);
            && w.outcome == Returned(0) && Ok(w.state) && Served(s, w.state, job, calls, w.outcome)
            && w.state.bus.lost == s.bus.lost && w.state.bus.taken in w.state.bus.answers
            && w.state.bus.answers[w.state.bus.taken] == Upcoming(s.bus, data)
  {
    var request := Framed(Text(s.mem, job.tx, job.txLen));
    StagedKeeps(s, job);
    ServesKeeps(s, JobCourse(s, job, data), tok, job, timeout, calls);
    TripCourse(s.(mem := Staged(s.mem, job)), request, ReplyBuffer(job), ReplyRoom(job), data, tok, timeout, calls);
  }

  /** The answer behind the one the exchange on the wire gets. */
  function Second(bus: Bus, data: seq<byte>, more: seq<byte>): (r: seq<byte>)
    requires Queue(bus, data) != []
  {
    if |Queue(bus, data)| > 1 then Queue(bus, data)[1].data else more
  }

  /** A transfer behind an unfinished exchange that runs its course is one over a free wire. */
  lemma {:induction false} CourseFrees(s: State, n: int, data: seq<byte>, more: seq<byte>, tok: nat, job: Job,
                                       timeout: nat, calls: Calls)
    returns (m: State, next: nat)
    requires Ok(s) && !s.dead && Usable(s, job) && Expects(s, data)
    ensures var es := JobCourse(s, job, more);
            && Transfers(s, Course(n, data) + es, tok, job, timeout, calls) == Serves(m, es, next, job, timeout, calls)
            && JobCourse(m, job, more) == es
    ensures Ok(m) && !m.x.busy && !m.dead && Usable(m, job)
    ensures m.bus.taken == s.bus.taken + 1 && m.bus.taken in m.bus.answers
    ensures m.bus.answers[m.bus.taken] == Queue(s.bus, data)[0].data
    ensures Upcoming(m.bus, more) == Second(s.bus, data, more)
  {
    var es := JobCourse(s, job, more);
    WaitsCourse(s, n, data, es, tok, timeout, calls.firstTimer);
    var w := Waits(s, Course(n, data) + es, tok, timeout, calls.firstTimer);
    WaitLeaves(s, w.state, job, Returned(0));
    m, next := w.state, w.tok;
    WaitThenServes(s, Course(n, data) + es, w, tok, job, timeout, calls);
    FreeServes(m, es, next, job, timeout, calls);
  }

  /** Two more answers were read. */
  predicate TookTwo(was: Bus, now: Bus, first: seq<byte>, second: seq<byte>) {
    && now.taken == was.taken + 2
    && was.taken + 1 in now.answers && now.answers[was.taken + 1] == first
    && was.taken + 2 in now.answers && now.answers[was.taken + 2] == second
  }

  lemma {:induction false} TookBoth(s: State, m: State, t: State, job: Job, calls: Calls, first: seq<byte>,
                                    second: seq<byte>)
    requires m.bus.taken == s.bus.taken + 1 && m.bus.taken in m.bus.answers && m.bus.answers[m.bus.taken] == first
    requires Served(m, t, job, calls, Returned(0)) && t.bus.taken in t.bus.answers
    requires t.bus.answers[t.bus.taken] == second
    ensures TookTwo(s.bus, t.bus, first, second)
  {
  }

  /** The same behind an unfinished exchange that runs its course first. */
  lemma {:induction false} TransfersCourse(s: State, n: int, data: seq<byte>, more: seq<byte>, tok: nat, job: Job,
                                           timeout: nat, calls: Calls)
    requires Ok(s) && !s.dead && Usable(s, job) && Fits(job) && Willing(calls) && Expects(s, data)
    requires |Second(s.bus, data, more)| <= ReplyRoom(job)
    ensures var w := Transfers(s, Course(n, data) + JobCourse(s, job, more), tok, job, timeout, calls);
            && w.outcome == Returned(0)
            && TookTwo(s.bus, w.state.bus, Queue(s.bus, data)[0].data, Second(s.bus, data, more))
  {
    var m, next := CourseFrees(s, n, data, more, tok, job, timeout, calls);
    ServesCourse(m, more, next, job, timeout, calls);
    var w := Serves(m, JobCourse(m, job, more), next, job, timeout, calls);
    TookBoth(s, m, w.state, job, calls, Queue(s.bus, data)[0].data, Second(s.bus, data, more));
  }

  /** The request transfer ends with this result, and the reply read fails. */
  function Failing(n: int, code: int): (es: seq<Event>) { [OutDone(n), InFailed(code)] }

  /** A failed read leaves the answers where they are. */
  predicate ReadFailed(s: State, m: State, code: int) {
    && !m.x.busy && m.bus.unread == s.bus.unread && m.bus.taken == s.bus.taken
    && m.x.outLen == s.x.outLen && m.x.inRes == code && m.failed == s.failed + [s.bus.serial]
  }

  lemma {:induction false} WaitFails(s: State, n: int, code: int, es: seq<Event>, tok: nat, timeout: nat,
                                     timerStarts: bool)
    requires Ok(s) && s.x.busy && !s.x.outDone && !s.x.inDone && !s.bus.landed && code < 0
    ensures var w := Waits(s, Failing(n, code) + es, tok, timeout, timerStarts);
            && w.outcome == Returned(0) && w.rest == es && Ok(w.state) && Waited(s, w.state, w.outcome)
            && ReadFailed(s, w.state, code) && w.state.x.outRes == n && w.state.bus.lost == LostAfter(s.bus, n)
  {
    FailingDrains(s, n, code, es, NextToken(tok, timeout), timeout > 0 && timerStarts);
    WaitsKeeps(s, Failing(n, code) + es, tok, timeout, timerStarts);
  }

  function LostAfter(bus: Bus, n: int): (r: seq<nat>) {
    if bus.sending && n < 0 then bus.lost + [bus.serial] else bus.lost
  }

  lemma {:induction false} FailingDrains(s: State, n: int, code: int, es: seq<Event>, token: nat, armed: bool)
    requires Ok(s) && s.x.busy && !s.x.outDone && !s.x.inDone && !s.bus.landed && code < 0
    ensures var d := Drained(s, Failing(n, code) + es, token, armed);
            && Done(d.state) && d.rest == es && d.state.x.inRes == code && d.state.x.outRes == n
            && d.state.x.outLen == s.x.outLen && d.state.bus.unread == s.bus.unread && d.state.bus.taken == s.bus.taken
            && d.state.bus.lost == LostAfter(s.bus, n)
  {
    var m := Happened(OutDone(n), s);
    RequestEnds(s, n);
    ReadEnds(m, code);
    assert Failing(n, code) + es == [OutDone(n)] + ([InFailed(code)] + es);
    DrainedStep(s, OutDone(n), [InFailed(code)] + es, token, armed);
    DrainedStep(m, InFailed(code), es, token, armed);
  }

  lemma {:induction false} RequestEnds(s: State, n: int)
    requires Wired(s) && s.x.busy && !s.x.outDone && !s.x.inDone && !s.bus.landed
    ensures var m := Happened(OutDone(n), s);
            && m.x == s.x.(outDone := true, outRes := n) && m.bus.ins == s.bus.ins != [] && !m.bus.landed
            && m.bus.unread == s.bus.unread && m.bus.taken == s.bus.taken && m.bus.lost == LostAfter(s.bus, n)
  {
  }

  lemma {:induction false} ReadEnds(s: State, code: int)
    requires s.bus.ins != [] && !s.bus.landed && code < 0
    ensures var m := Happened(InFailed(code), s);
            && m.x == s.x.(inDone := true, inRes := code)
            && m.bus.unread == s.bus.unread && m.bus.taken == s.bus.taken && m.bus.lost == s.bus.lost
  {
  }

  lemma {:induction false} UsableKept(s: State, t: State, job: Job)
    requires Usable(s, job) && SamePost(s, t) && SameShape(s.mem, t.mem) && (t.x.busy ==> t.x.inBuf != job.tx)
    ensures Usable(t, job)
  {
  }

  /** The code of an exchange whose read failed: that of the request transfer, if it was not sent in full. */
  function FailCode(n: int, len: nat, code: int): (r: int) {
    if n == len then code else if n < 0 then n else SHORT
  }

  lemma {:induction false} ResultFails(x: Exchange, n: int, len: nat, code: int)
    requires x.outRes == n && x.outLen == len && x.inRes == code < 0
    ensures Result(x) == FailCode(n, len, code) < 0
  {
  }

  /** What an exchange whose read failed leaves: a free wire, one more failed read, and the answers where they were. */
  predicate LeftByFailure(s: State, t: State, n: int) {
    && t.bus.unread == s.bus.unread && t.bus.taken == s.bus.taken
    && t.bus.lost == (if n < 0 then s.bus.lost + [s.bus.serial + 1] else s.bus.lost)
    && t.failed == s.failed + [s.bus.serial + 1] && !t.dead && !t.x.busy
  }

  lemma {:induction false} TripFails(s: State, request: seq<byte>, buf: nat, cap: nat, n: int, code: int, tok: nat,
                                     timeout: nat, calls: Calls)
    requires Ok(s) && !s.x.busy && !s.dead && buf in s.mem && cap <= |s.mem[buf]| && (s.postOpen ==> buf != s.post.buf)
    requires Willing(calls) && code < 0
    ensures var w := RoundTrips(s, Failing(n, code), tok, request, buf, cap, timeout, calls);
            w.outcome == Returned(FailCode(n, |request|, code)) && LeftByFailure(s, w.state, n)
  {
    var m := Started(s, request, buf, cap, false, calls.outStart);
    StartKeeps(s, request, buf, cap, calls.outStart);
    assert Failing(n, code) + [] == Failing(n, code);
    WaitFails(m, n, code, [], tok, timeout, calls.secondTimer);
    ResultFails(Waits(m, Failing(n, code), tok, timeout, calls.secondTimer).state.x, n, |request|, code);
  }

  /** Over a free wire nothing has to go first. */
  lemma {:induction false} FreeServes(s: State, es: seq<Event>, tok: nat, job: Job, timeout: nat, calls: Calls)
    requires !s.x.busy
    ensures Transfers(s, es, tok, job, timeout, calls) == Serves(s, es, tok, job, timeout, calls)
  {
  }

  lemma {:induction false} ServesFails(s: State, n: int, code: int, tok: nat, job: Job, timeout: nat, calls: Calls)
    requires Ok(s) && !s.x.busy && !s.dead && Usable(s, job) && Fits(job) && Willing(calls) && code < 0
    ensures var w := Serves(s, Failing(n, code), tok, job, timeout, calls);
            w.outcome == Returned(FailCode(n, RequestSize(s, job), code)) && LeftByFailure(s, w.state, n)
  {
    var request, m := Framed(Text(s.mem, job.tx, job.txLen)), s.(mem := Staged(s.mem, job));
    StagedKeeps(s, job);
    TripFails(m, request, ReplyBuffer(job), ReplyRoom(job), n, code, tok, timeout, calls);
  }

  function RequestSize(s: State, job: Job): (n: nat) { |Framed(Text(s.mem, job.tx, job.txLen))| }

  /** A blocking exchange whose reply read fails. */
  lemma {:induction false} TransferFails(s: State, n: int, code: int, tok: nat, job: Job, timeout: nat, calls: Calls)
    requires Ok(s) && !s.x.busy && !s.dead && Usable(s, job) && Fits(job) && Willing(calls) && code < 0
    ensures var w := Transfers(s, Failing(n, code), tok, job, timeout, calls);
            && w.outcome == Returned(FailCode(n, RequestSize(s, job), code))
            && Ok(w.state) && Transferred(s, w.state, job, calls, w.outcome) && LeftByFailure(s, w.state, n)
  {
    FreeServes(s, Failing(n, code), tok, job, timeout, calls);
    ServesFails(s, n, code, tok, job, timeout, calls);
    TransfersKeeps(s, Failing(n, code), tok, job, timeout, calls);
  }

  function RxContents(mem: Memory, job: Job): (r: seq<byte>) { if job.rx.Some? then At(mem, job.rx.value) else [] }

  /** Exchange number k ended with answer number j, delivered to the caller. */
  predicate GotAnswer(t: State, k: nat, j: nat, data: seq<byte>, job: Job, base: seq<byte>) {
    && t.bus.serial == k && k in t.results && t.results[k] == 0 && k in t.sources && t.sources[k] == j
    && t.bus.taken == j && j in t.bus.answers && t.bus.answers[j] == data
    && (job.rx.Some? ==> Delivered(t.bus, t.mem, job, base))
  }

  /** The next exchange returned 0 with the next answer, and no request was lost. */
  predicate Brings(w: Step, s: State, data: seq<byte>, job: Job) {
    && w.outcome == Returned(0) && Ok(w.state) && w.state.bus.lost == s.bus.lost
    && GotAnswer(w.state, s.bus.serial + 1, s.bus.taken + 1, data, job, RxContents(s.mem, job))
  }

  lemma {:induction false} BringsAlike(w: Step, s: State, m: State, data: seq<byte>, job: Job)
    requires Brings(w, m, data, job) && m.mem == s.mem && m.bus.lost == s.bus.lost
    requires m.bus.serial == s.bus.serial && m.bus.taken == s.bus.taken
    ensures Brings(w, s, data, job)
  {
  }

  lemma {:induction false} ServedWith(s: State, t: State, job: Job, calls: Calls, data: seq<byte>)
    requires Ok(t) && !s.dead && Willing(calls) && Fits(job) && Served(s, t, job, calls, Returned(0))
    requires t.bus.taken in t.bus.answers && t.bus.answers[t.bus.taken] == data
    ensures GotAnswer(t, s.bus.serial + 1, s.bus.taken + 1, data, job, RxContents(s.mem, job))
  {
  }

  /** Over a free wire, an exchange that runs its course returns 0 with the answer next in line. */
  lemma {:induction false} FreeCourse(s: State, job: Job, data: seq<byte>, tok: nat, timeout: nat, calls: Calls)
    requires Ok(s) && !s.x.busy && !s.dead && s.bus.unread == [] && Willing(calls)
    requires Usable(s, job) && Fits(job) && |data| <= ReplyRoom(job)
    ensures Brings(Transfers(s, JobCourse(s, job, data), tok, job, timeout, calls), s, data, job)
  {
    ServesCourse(s, data, tok, job, timeout, calls);
    ServedWith(s, Serves(s, JobCourse(s, job, data), tok, job, timeout, calls).state, job, calls, data);
  }

  /** While no reply read has failed, a free wire owes nothing. */
  lemma {:induction false} NothingOwed(s: State)
    requires InStep(s) && !s.x.busy && !s.dead && s.failed == []
    ensures s.bus.unread == [] && s.bus.waiting == [] && s.bus.lost == [] && s.bus.taken == s.bus.serial
  {
  }

  /**
   * After a failed reply read the replies are off by one: the next exchange returns 0, and its
   * caller gets the reply to the request before.
   */
  lemma {:induction false} FailedReadShifts(s: State, first: Job, second: Job, code: int, data: seq<byte>, tok: nat,
                                            timeout: nat, calls: Calls)
    requires Ok(s) && !s.x.busy && !s.dead && s.failed == [] && code < 0 && Willing(calls)
    requires Usable(s, first) && Fits(first) && Usable(s, second) && Fits(second) && |data| <= ReplyRoom(second)
    ensures var a := Transfers(s, Failing(RequestSize(s, first), code), tok, first, timeout, calls);
            var b := Transfers(a.state, JobCourse(a.state, second, data), a.tok, second, timeout, calls);
            && a.outcome == Returned(code) && a.state.bus.serial == s.bus.serial + 1
            && b.outcome == Returned(0)
            && GotAnswer(b.state, s.bus.serial + 2, s.bus.serial + 1, data, second, RxContents(a.state.mem, second))
            && GotReplyOf(b.state, s.bus.serial + 2, s.bus.serial + 1)
  {
    var n := RequestSize(s, first);
    NothingOwed(s);
    TransferFails(s, n, code, tok, first, timeout, calls);
    var a := Transfers(s, Failing(n, code), tok, first, timeout, calls);
    UsableKept(s, a.state, second);
    NextAfter(a.state, second, data, a.tok, timeout, calls);
  }

  /** The exchange after that. */
  lemma {:induction false} NextAfter(a: State, job: Job, data: seq<byte>, tok: nat, timeout: nat, calls: Calls)
    requires Ok(a) && !a.x.busy && !a.dead && a.bus.unread == [] && a.bus.lost == [] && Willing(calls)
    requires Usable(a, job) && Fits(job) && |data| <= ReplyRoom(job)
    ensures var b := Transfers(a, JobCourse(a, job, data), tok, job, timeout, calls);
            && b.outcome == Returned(0)
            && GotAnswer(b.state, a.bus.serial + 1, a.bus.taken + 1, data, job, RxContents(a.mem, job))
            && GotReplyOf(b.state, a.bus.serial + 1, a.bus.taken + 1)
  {
    FreeCourse(a, job, data, tok, timeout, calls);
    var b := Transfers(a, JobCourse(a, job, data), tok, job, timeout, calls);
    PlainOrigin(b.state, a.bus.serial + 1, a.bus.taken + 1);
  }

  /**
   * A lost request makes up for it: when the request never arrived and its read fails, the next reply is the right one.
   */
  lemma {:induction false} LossMakesUp(s: State, first: Job, second: Job, n: int, code: int, data: seq<byte>, tok: nat,
                                       timeout: nat, calls: Calls)
    requires Ok(s) && !s.x.busy && !s.dead && s.failed == [] && n < 0 && code < 0 && Willing(calls)
    requires Usable(s, first) && Fits(first) && Usable(s, second) && Fits(second) && |data| <= ReplyRoom(second)
    ensures var a := Transfers(s, Failing(n, code), tok, first, timeout, calls);
            var b := Transfers(a.state, JobCourse(a.state, second, data), a.tok, second, timeout, calls);
            a.outcome == Returned(n) && b.outcome == Returned(0) && GotOwn(b.state, s.bus.serial + 2)
  {
    NothingOwed(s);
    TransferFails(s, n, code, tok, first, timeout, calls);
    var a := Transfers(s, Failing(n, code), tok, first, timeout, calls);
    UsableKept(s, a.state, second);
    OwnAfterLoss(a.state, second, data, a.tok, timeout, calls);
  }

  lemma {:induction false} OwnAfterLoss(a: State, job: Job, data: seq<byte>, tok: nat, timeout: nat, calls: Calls)
    requires Ok(a) && !a.x.busy && !a.dead && a.bus.unread == [] && |a.bus.lost| == |a.failed| && Willing(calls)
    requires Usable(a, job) && Fits(job) && |data| <= ReplyRoom(job)
    ensures var b := Transfers(a, JobCourse(a, job, data), tok, job, timeout, calls);
            b.outcome == Returned(0) && GotOwn(b.state, a.bus.serial + 1)
  {
    var es := JobCourse(a, job, data);
    FreeCourse(a, job, data, tok, timeout, calls);
    TransferOwnExactly(a, es, tok, job, timeout, calls);
  }

  /** While no request is lost, host and adapter number them alike. */
  lemma {:induction false} PlainOrigin(t: State, k: nat, j: nat)
    requires Ok(t) && t.bus.lost == [] && k in t.sources && t.sources[k] == j && j in t.bus.answers
    ensures GotReplyOf(t, k, j)
  {
    assert OriginAt(j, t.bus.origin[j], t.bus.lost, t.bus.serial);
  }

  /** The exchange the job put on the wire, with nothing of it done yet. */
  predicate Pending(s: State, m: State, job: Job) {
    && m.x.busy && !m.x.inDone && !m.x.outDone && !m.bus.landed && !m.dead
    && m.x.inBuf == ReplyBuffer(job) && m.x.inCap == ReplyRoom(job)
    && m.bus.unread == s.bus.unread && m.bus.waiting == s.bus.waiting && m.bus.sending && m.bus.lost == s.bus.lost
    && m.bus.serial == s.bus.serial + 1 && m.bus.taken == s.bus.taken && m.failed == s.failed
  }

  lemma {:induction false} WaitExpires(s: State, tok: nat, timeout: nat)
    requires s.x.busy && !Done(s) && timeout > 0
    ensures Waits(s, [Timer(NextToken(tok, timeout))], tok, timeout, true)
         == Step(s, [], NextToken(tok, timeout), Returned(TIMEOUT))
  {
  }

  /** A blocking exchange whose timer is the first to come returns with the exchange on the wire. */
  lemma {:induction false} TimesOut(s: State, tok: nat, job: Job, timeout: nat, calls: Calls)
    requires Ok(s) && !s.x.busy && !s.dead && Usable(s, job) && Fits(job) && Willing(calls) && calls.secondTimer
    requires timeout > 0
    ensures var w := Transfers(s, [Timer(NextToken(tok, timeout))], tok, job, timeout, calls);
            && w.outcome == Returned(TIMEOUT) && Ok(w.state)
            && Transferred(s, w.state, job, calls, w.outcome) && Pending(s, w.state, job)
  {
    var es := [Timer(NextToken(tok, timeout))];
    var m := s.(mem := Staged(s.mem, job));
    StagedKeeps(s, job);
    WaitExpires(Started(m, Framed(Text(s.mem, job.tx, job.txLen)), ReplyBuffer(job), ReplyRoom(job), false,
      calls.outStart), tok, timeout);
    TransfersKeeps(s, es, tok, job, timeout, calls);
  }

  /** The caller clears its reply buffer. */
  function ClearedRx(s: State, rx: nat): (r: State) { s.(mem := s.mem[rx := Zeros(|At(s.mem, rx)|)]) }

  lemma {:induction false} TwoOverlays(n: nat, late: seq<byte>, reply: seq<byte>)
    requires |reply| < |late| <= n
    ensures Overlay(Overlay(Zeros(n), late), reply)[|reply|..|late|] == late[|reply|..]
  {
  }

  lemma {:induction false} TailShows(s: State, t: State, job: Job, late: seq<byte>, reply: seq<byte>, calls: Calls)
    requires Ok(s) && Usable(s, job) && IsDirect(job) && s.x.busy && s.x.inBuf == job.rx.value
    requires |reply| < |late| <= job.rxLen
    requires Transferred(s, t, job, calls, Returned(0)) && TookTwo(s.bus, t.bus, late, reply)
    requires s.mem[job.rx.value] == Zeros(|s.mem[job.rx.value]|)
    ensures |At(t.mem, job.rx.value)| >= job.rxLen && At(t.mem, job.rx.value)[|reply|..|late|] == late[|reply|..]
  {
    TwoOverlays(|s.mem[job.rx.value]|, late, reply);
  }

  lemma {:induction false} TailOf(s: State, es: seq<Event>, tok: nat, job: Job, late: seq<byte>, reply: seq<byte>,
                                  timeout: nat, calls: Calls)
    requires Ok(s) && Usable(s, job) && IsDirect(job) && s.x.busy && s.x.inBuf == job.rx.value
    requires |reply| < |late| <= job.rxLen && s.mem[job.rx.value] == Zeros(|s.mem[job.rx.value]|)
    requires var w := Transfers(s, es, tok, job, timeout, calls);
             w.outcome == Returned(0) && TookTwo(s.bus, w.state.bus, late, reply)
    ensures var mem := Transfers(s, es, tok, job, timeout, calls).state.mem;
            |At(mem, job.rx.value)| >= job.rxLen && At(mem, job.rx.value)[|reply|..|late|] == late[|reply|..]
  {
    TransfersKeeps(s, es, tok, job, timeout, calls);
    TailShows(s, Transfers(s, es, tok, job, timeout, calls).state, job, late, reply, calls);
  }

  lemma {:induction false} LateQueue(s: State, late: seq<byte>, reply: seq<byte>)
    requires s.x.busy && !s.x.inDone && !s.bus.landed && |late| <= s.x.inCap && s.bus.unread == []
    requires |s.bus.waiting| + (if s.bus.sending then 1 else 0) == 1
    ensures Expects(s, late) && Queue(s.bus, late)[0].data == late && Second(s.bus, late, reply) == reply
  {
  }

  /** The second of two exchanges into the same buffer, the first of which had not ended. */
  lemma {:induction false} LateTail(s: State, job: Job, late: seq<byte>, reply: seq<byte>, tok: nat, timeout: nat,
                                    calls: Calls)
    requires Ok(s) && !s.dead && Usable(s, job) && Fits(job) && IsDirect(job) && Willing(calls)
    requires s.x.busy && !s.x.inDone && !s.bus.landed && s.x.inBuf == job.rx.value && |late| <= s.x.inCap
    requires s.bus.unread == [] && |s.bus.waiting| + (if s.bus.sending then 1 else 0) == 1
    requires |reply| < |late| <= job.rxLen
    requires s.mem[job.rx.value] == Zeros(|s.mem[job.rx.value]|)
    ensures var w := Transfers(s, Course(s.x.outLen, late) + JobCourse(s, job, reply), tok, job, timeout, calls);
            && w.outcome == Returned(0) && w.state.bus.taken in w.state.bus.answers
            && w.state.bus.answers[w.state.bus.taken] == reply
            && |At(w.state.mem, job.rx.value)| >= job.rxLen
            && At(w.state.mem, job.rx.value)[|reply|..|late|] == late[|reply|..]
  {
    var es := Course(s.x.outLen, late) + JobCourse(s, job, reply);
    LateQueue(s, late, reply);
    TransfersCourse(s, s.x.outLen, late, reply, tok, job, timeout, calls);
    TailOf(s, es, tok, job, late, reply, timeout, calls);
  }

  /**
   * A late reply can outlive its exchange. A direct exchange times out; its caller clears the buffer and
   * tries again; the second call returns 0, and behind its own shorter reply stand bytes of the late one.
   */
  lemma {:induction false} LateTailStays(s: State, job: Job, late: seq<byte>, reply: seq<byte>, tok: nat, timeout: nat,
                                         calls: Calls)
    requires Ok(s) && !s.x.busy && !s.dead && s.failed == [] && Usable(s, job) && Fits(job) && IsDirect(job)
    requires Willing(calls) && calls.secondTimer && timeout > 0 && |reply| < |late| <= job.rxLen
    ensures var a := Transfers(s, [Timer(NextToken(tok, timeout))], tok, job, timeout, calls);
            var m := ClearedRx(a.state, job.rx.value);
            var b := Transfers(m, Course(m.x.outLen, late) + JobCourse(m, job, reply), a.tok, job, timeout, calls);
            && a.outcome == Returned(TIMEOUT) && Ok(m) && b.outcome == Returned(0)
            && b.state.bus.taken in b.state.bus.answers && b.state.bus.answers[b.state.bus.taken] == reply
            && |At(b.state.mem, job.rx.value)| >= job.rxLen
            && At(b.state.mem, job.rx.value)[|reply|..|late|] == late[|reply|..]
  {
    NothingOwed(s);
    TimesOut(s, tok, job, timeout, calls);
    var a := Transfers(s, [Timer(NextToken(tok, timeout))], tok, job, timeout, calls);
    var m := ClearedRx(a.state, job.rx.value);
    TouchKeeps(a.state, job.rx.value, Zeros(|At(a.state.mem, job.rx.value)|));
    UsableKept(s, m, job);
    LateTail(m, job, late, reply, a.tok, timeout, calls);
  }

  /** A wait that freed the wire, and the transfer behind it. */
  lemma {:induction false} WaitThenServes(s: State, es: seq<Event>, m: Step, tok: nat, job: Job, timeout: nat,
                                          calls: Calls)
    requires m == Waits(s, es, tok, timeout, calls.firstTimer) && m.outcome == Returned(0) && !m.state.x.busy
    ensures Transfers(s, es, tok, job, timeout, calls) == Transfers(m.state, m.rest, m.tok, job, timeout, calls)
  {
    FreeServes(m.state, m.rest, m.tok, job, timeout, calls);
  }

  /** The wait during which a reply read fails: the wire is free, and nothing else has moved. */
  lemma {:induction false} FailureFrees(s: State, job: Job, n: int, code: int, es: seq<Event>, tok: nat, timeout: nat,
                                        calls: Calls)
    returns (m: Step)
    requires Ok(s) && !s.dead && s.x.busy && !s.x.outDone && !s.x.inDone && !s.bus.landed && code < 0 <= n
    requires Usable(s, job)
    ensures Ok(m.state) && !m.state.x.busy && !m.state.dead && Usable(m.state, job) && m.state.mem == s.mem
    ensures m.state.bus.unread == s.bus.unread && m.state.bus.lost == s.bus.lost
    ensures m.state.bus.serial == s.bus.serial && m.state.bus.taken == s.bus.taken
    ensures Transfers(s, Failing(n, code) + es, tok, job, timeout, calls)
         == Transfers(m.state, es, m.tok, job, timeout, calls)
  {
    m := Waits(s, Failing(n, code) + es, tok, timeout, calls.firstTimer);
    WaitFails(s, n, code, es, tok, timeout, calls.firstTimer);
    WaitLeaves(s, m.state, job, Returned(0));
    WaitThenServes(s, Failing(n, code) + es, m, tok, job, timeout, calls);
  }

  /** A transfer behind an exchange whose reply read fails meanwhile. */
  lemma {:induction false} FailureBehind(s: State, job: Job, n: int, code: int, data: seq<byte>, tok: nat,
                                         timeout: nat, calls: Calls)
    requires Ok(s) && !s.dead && s.x.busy && !s.x.outDone && !s.x.inDone && !s.bus.landed && s.bus.unread == []
    requires code < 0 <= n && Willing(calls) && Usable(s, job) && Fits(job) && |data| <= ReplyRoom(job)
    ensures Brings(Transfers(s, Failing(n, code) + JobCourse(s, job, data), tok, job, timeout, calls), s, data, job)
  {
    var m := FailureFrees(s, job, n, code, JobCourse(s, job, data), tok, timeout, calls);
    FreeCourse(m.state, job, data, m.tok, timeout, calls);
    BringsAlike(Transfers(m.state, JobCourse(s, job, data), m.tok, job, timeout, calls), s, m.state, data, job);
  }

  lemma {:induction false} LateFailure(s: State, m: State, first: Job, second: Job, code: int, data: seq<byte>,
                                       tok: nat, timeout: nat, calls: Calls)
    requires Ok(m) && Pending(s, m, first) && s.bus.unread == [] && s.bus.lost == [] && s.bus.taken == s.bus.serial
    requires code < 0 && Willing(calls) && Usable(m, second) && Fits(second) && |data| <= ReplyRoom(second)
    ensures var b := Transfers(m, Failing(m.x.outLen, code) + JobCourse(m, second, data), tok, second, timeout, calls);
            && b.outcome == Returned(0)
            && GotAnswer(b.state, s.bus.serial + 2, s.bus.serial + 1, data, second, RxContents(m.mem, second))
            && GotReplyOf(b.state, s.bus.serial + 2, s.bus.serial + 1)
  {
    FailureBehind(m, second, m.x.outLen, code, data, tok, timeout, calls);
    var es := Failing(m.x.outLen, code) + JobCourse(m, second, data);
    PlainOrigin(Transfers(m, es, tok, second, timeout, calls).state, s.bus.serial + 2, s.bus.serial + 1);
  }

  /**
   * The codes need not show it: an exchange times out, its read fails while the next call waits for
   * the wire, and that call returns 0 with the reply to the request before.
   */
  lemma {:induction false} LateFailureShifts(s: State, first: Job, second: Job, code: int, data: seq<byte>, tok: nat,
                                             timeout: nat, calls: Calls)
    requires Ok(s) && !s.x.busy && !s.dead && s.failed == [] && code < 0 && Willing(calls) && calls.secondTimer
    requires timeout > 0
    requires Usable(s, first) && Fits(first) && Usable(s, second) && Fits(second) && |data| <= ReplyRoom(second)
    requires ReplyBuffer(first) != second.tx
    ensures var a := Transfers(s, [Timer(NextToken(tok, timeout))], tok, first, timeout, calls);
            var b := Transfers(a.state, Failing(a.state.x.outLen, code) + JobCourse(a.state, second, data), a.tok,
              second, timeout, calls);
            && a.outcome == Returned(TIMEOUT) && b.outcome == Returned(0)
            && GotAnswer(b.state, s.bus.serial + 2, s.bus.serial + 1, data, second, RxContents(a.state.mem, second))
            && GotReplyOf(b.state, s.bus.serial + 2, s.bus.serial + 1)
  {
    NothingOwed(s);
    TimesOut(s, tok, first, timeout, calls);
    var a := Transfers(s, [Timer(NextToken(tok, timeout))], tok, first, timeout, calls);
    UsableKept(s, a.state, second);
    LateFailure(s, a.state, first, second, code, data, a.tok, timeout, calls);
  }

  /** If the call returns 0, its buffer holds the reply and zeros behind it. */
  predicate ExactRun(s: State, es: seq<Event>, tok: nat, job: Job, timeout: nat, calls: Calls)
    requires job.rx.Some?
  {
    var w := Transfers(s, es, tok, job, timeout, calls);
    w.outcome == Returned(0) ==>
      && w.state.bus.taken in w.state.bus.answers
      && Front(At(w.state.mem, job.rx.value), job.rxLen) == Window(w.state.bus.answers[w.state.bus.taken], 0, job.rxLen)
  }

  ghost predicate AlwaysExact(s: State, job: Job)
    requires job.rx.Some?
  {
    forall es, tok, timeout, calls :: ExactRun(s, es, tok, job, timeout, calls)
  }

  /** A byte of the first answer that can outlast the second one in a cleared buffer. */
  predicate Outlasts(first: seq<byte>, second: seq<byte>, rxLen: nat) {
    |second| <= rxLen && exists p :: |second| <= p < rxLen && p < |first| && first[p] != 0
  }

  /**
   * The call comes while an exchange into the same buffer still waits for its reply: one the adapter is
   * yet to make up, or one already given that can outlast the answer behind it.
   */
  predicate Exposed(s: State, job: Job)
    requires job.rx.Some?
  {
    && s.x.busy && !s.x.inDone && !Received(s) && s.x.inBuf == job.rx.value
    && !s.dead && RequestFits(job)
    && if s.bus.unread == [] then s.x.inCap > 0 && (s.bus.waiting != [] || s.bus.sending)
       else
         && |s.bus.unread[0].data| <= s.x.inCap
         && Outlasts(s.bus.unread[0].data, if |s.bus.unread| > 1 then s.bus.unread[1].data else [], job.rxLen)
  }

  /** A direct delivery is the reply followed by zeros exactly when the buffer held zeros behind it. */
  lemma {:induction false} DirectExactly(base: seq<byte>, reply: seq<byte>, rxLen: nat)
    requires |reply| <= rxLen <= |base|
    ensures Front(Overlay(base, reply), rxLen) == Window(reply, 0, rxLen) <==>
              forall j :: |reply| <= j < rxLen ==> base[j] == 0
  {
    var o, w := Overlay(base, reply), Window(reply, 0, rxLen);
    forall j | 0 <= j < rxLen
      ensures o[j] == (if j < |reply| then reply[j] else base[j]) && w[j] == if j < |reply| then reply[j] else 0
    {
    }
    if Front(o, rxLen) == w {
      forall j | |reply| <= j < rxLen
        ensures base[j] == 0
      {
        assert o[..rxLen][j] == w[j];
      }
    }
  }

  predicate Clear(c: seq<byte>, n: nat) { n <= |c| && forall j :: 0 <= j < n ==> c[j] == 0 }

  /** Two deliveries into a cleared buffer. */
  lemma {:induction false} OutlastsExactly(c: seq<byte>, first: seq<byte>, second: seq<byte>, rxLen: nat)
    requires |second| <= rxLen && Clear(c, rxLen) && |first| <= |c|
    ensures Front(Overlay(Overlay(c, first), second), rxLen) == Window(second, 0, rxLen) <==>
      !Outlasts(first, second, rxLen)
  {
    var base := Overlay(c, first);
    DirectExactly(base, second, rxLen);
    forall j | 0 <= j < rxLen
      ensures base[j] == if j < |first| then first[j] else 0
    {
    }
  }

  /** The answers a wire already holds are the next ones read. */
  lemma {:induction false} UnreadNext(s: State, t: State)
    requires Ok(s) && Onward(s, t)
    ensures |s.bus.unread| > 0 ==>
      s.bus.taken + 1 in t.bus.answers && t.bus.answers[s.bus.taken + 1] == s.bus.unread[0].data
    ensures |s.bus.unread| > 1 ==>
      s.bus.taken + 2 in t.bus.answers && t.bus.answers[s.bus.taken + 2] == s.bus.unread[1].data
  {
    if |s.bus.unread| > 0 {
      assert AnswerAt(s.bus.unread[0], s.bus.taken + 1 + 0, s.bus.answers);
    }
    if |s.bus.unread| > 1 {
      assert AnswerAt(s.bus.unread[1], s.bus.taken + 1 + 1, s.bus.answers);
    }
  }

  /** Nothing of a late reply shows, however the wire behaves. */
  lemma {:induction false} HiddenTail(s: State, t: State, job: Job, first: seq<byte>, second: seq<byte>)
    requires Ok(s) && job.rx.Some? && Onward(s, t) && !s.dead && RequestFits(job) && !Exposed(s, job)
    requires LateArrival(s, t.bus) && s.x.inBuf == job.rx.value && |second| <= job.rxLen
    requires first == t.bus.answers[s.bus.taken + 1] && s.bus.taken + 2 in t.bus.answers
    requires second == t.bus.answers[s.bus.taken + 2]
    ensures !Outlasts(first, second, job.rxLen)
  {
    UnreadNext(s, t);
    OutlastsNothing(first, second, job.rxLen);
  }

  lemma {:induction false} OutlastsNothing(first: seq<byte>, second: seq<byte>, rxLen: nat)
    ensures Outlasts(first, second, rxLen) ==> Outlasts(first, [], rxLen)
  {
    if Outlasts(first, second, rxLen) {
      var p :| |second| <= p < rxLen && p < |first| && first[p] != 0;
      assert first[p] != 0;
    }
  }

  lemma {:induction false} DeliveredExact(s: State, t: State, job: Job, calls: Calls)
    requires Ok(s) && Usable(s, job) && IsDirect(job) && Clear(At(s.mem, job.rx.value), job.rxLen) && !Exposed(s, job)
    requires Transferred(s, t, job, calls, Returned(0)) && !s.dead && RequestFits(job)
    ensures Front(At(t.mem, job.rx.value), job.rxLen) == Window(t.bus.answers[t.bus.taken], 0, job.rxLen)
  {
    var rx, second := job.rx.value, t.bus.answers[t.bus.taken];
    var base := Base(s, t.bus, rx);
    if t.bus.taken == s.bus.taken + 2 && s.x.inBuf == rx {
      var first := t.bus.answers[s.bus.taken + 1];
      HiddenTail(s, t, job, first, second);
      OutlastsExactly(At(s.mem, rx), first, second, job.rxLen);
    } else {
      DirectExactly(At(s.mem, rx), second, job.rxLen);
    }
  }

  /** A transfer that returns 0 found a link that is not dead and a request that fits. */
  lemma {:induction false} SuccessMeans(s: State, t: State, job: Job, calls: Calls)
    requires Transferred(s, t, job, calls, Returned(0))
    ensures !s.dead && Fits(job)
  {
  }

  lemma {:induction false} HiddenIsExact(s: State, job: Job, es: seq<Event>, tok: nat, timeout: nat, calls: Calls)
    requires Ok(s) && Usable(s, job) && IsDirect(job) && Clear(At(s.mem, job.rx.value), job.rxLen) && !Exposed(s, job)
    ensures ExactRun(s, es, tok, job, timeout, calls)
  {
    TransfersKeeps(s, es, tok, job, timeout, calls);
    var w := Transfers(s, es, tok, job, timeout, calls);
    if w.outcome == Returned(0) {
      SuccessMeans(s, w.state, job, calls);
      DeliveredExact(s, w.state, job, calls);
    }
  }

  /** While such an exchange is on the wire, some run leaves bytes of its reply behind the next one. */
  lemma {:induction false} ExposedRun(s: State, job: Job) returns (es: seq<Event>, calls: Calls)
    requires Ok(s) && Usable(s, job) && IsDirect(job) && Clear(At(s.mem, job.rx.value), job.rxLen) && Exposed(s, job)
    ensures !ExactRun(s, es, 0, job, 0, calls)
  {
    var late := if s.bus.unread == [] then [1] else [];
    calls := Calls(false, false, 0, 0);
    es := Course(s.x.outLen, late) + JobCourse(s, job, []);
    ExposedQueue(s, job, late);
    TransfersCourse(s, s.x.outLen, late, [], 0, job, 0, calls);
    OutlastingRun(s, job, es, calls, Queue(s.bus, late)[0].data, Second(s.bus, late, []));
  }

  lemma {:induction false} OutlastingRun(s: State, job: Job, es: seq<Event>, calls: Calls, first: seq<byte>,
                                         second: seq<byte>)
    requires Ok(s) && Usable(s, job) && IsDirect(job) && Clear(At(s.mem, job.rx.value), job.rxLen)
    requires s.x.busy && s.x.inBuf == job.rx.value && Outlasts(first, second, job.rxLen)
    requires var w := Transfers(s, es, 0, job, 0, calls);
             w.outcome == Returned(0) && TookTwo(s.bus, w.state.bus, first, second)
    ensures !ExactRun(s, es, 0, job, 0, calls)
  {
    TransfersKeeps(s, es, 0, job, 0, calls);
    OutlastsExactly(At(s.mem, job.rx.value), first, second, job.rxLen);
  }

  lemma {:induction false} ExposedQueue(s: State, job: Job, late: seq<byte>)
    requires Ok(s) && job.rx.Some? && job.rxLen > 0 && Exposed(s, job) && late == if s.bus.unread == [] then [1] else []
    ensures Expects(s, late) && Outlasts(Queue(s.bus, late)[0].data, Second(s.bus, late, []), job.rxLen)
  {
    if s.bus.unread == [] {
      assert late[0] != 0;
    }
  }

  /**
   * A direct exchange into a cleared buffer leaves the reply and nothing else in it, whatever happens on
   * the wire, exactly when no unfinished exchange can still write into that buffer.
   */
  lemma {:induction false} ClearedExactly(s: State, job: Job)
    requires Ok(s) && Usable(s, job) && IsDirect(job) && Clear(At(s.mem, job.rx.value), job.rxLen)
    ensures AlwaysExact(s, job) <==> !Exposed(s, job)
  {
    if Exposed(s, job) {
      var es, calls := ExposedRun(s, job);
      assert !ExactRun(s, es, 0, job, 0, calls);
    } else {
      forall es, tok, timeout, calls
        ensures ExactRun(s, es, tok, job, timeout, calls)
      {
        HiddenIsExact(s, job, es, tok, timeout, calls);
      }
    }
  }

  /** What a caller can look at before the call: the wire is free, or the exchange on it reads into another buffer. */
  lemma {:induction false} ElsewhereExact(s: State, job: Job)
    requires Ok(s) && Usable(s, job) && IsDirect(job) && Clear(At(s.mem, job.rx.value), job.rxLen)
    requires !s.x.busy || s.x.inBuf != job.rx.value
    ensures AlwaysExact(s, job)
  {
    ClearedExactly(s, job);
  }
}
