/** The link: every call does to the state what its function says. */
module UsbLink {
  import opened Bytes
  import opened UsbBus
  import opened UsbExchange
  import opened UsbState
  import opened UsbTransfer

  class Link {
    var up: bool
    var dead: bool
    var x: Exchange
    var postOpen: bool
    var postReady: bool
    var postRes: int
    var tok: nat
    var mem: Memory
    var bus: Bus
    /** What the wire is going to do. */
    var script: seq<Event>
    /** The records of the past, by request number, and the posted exchange. */
    ghost var results: map<nat, int>
    ghost var failed: seq<nat>
    ghost var sources: map<nat, nat>
    ghost var post: Posted

    constructor (isUp: bool, memory: Memory, future: seq<Event>)
      requires Bounces(memory)
      ensures Valid() && up == isUp && mem == memory && script == future
      ensures !x.busy && !dead && !postOpen && results == map[] && failed == []
    {
      up, dead, tok, mem, script := isUp, false, 0, memory, future;
      x := Exchange(false, false, false, false, 0, 0, 0, 0, 0);
      bus := Bus([], false, 0, false, 0, map[], [], 0, map[], [], map[], [], 0);
      postOpen, postReady, postRes := false, false, 0;
      results, failed, sources, post := map[], [], map[], Posted(0, 0, []);
    }

    ghost function View(): (s: State)
      reads this
    {
      State(dead, x, bus, mem, results, failed, sources, postOpen, postReady, postRes, post)
    }

    ghost predicate Valid()
      reads this
    {
      Ok(View())
    }

    /** Message reception; `none` when the script has ended. */
    method Receive() returns (m: Message, none: bool)
      modifies this`bus, this`mem, this`script
      ensures none == (old(script) == [])
      ensures none ==> bus == old(bus) && mem == old(mem) && script == [] && m == Nothing
      ensures !none ==> script == old(script)[1..] && m == MessageOf(old(script)[0], old(bus))
      ensures !none ==> bus == After(old(script)[0], old(bus)) && mem == MemoryAfter(old(script)[0], old(bus), old(mem))
    {
      none, m := script == [], Nothing;
      if !none {
        var e := script[0];
        m := MessageOf(e, bus);
        bus, mem, script := After(e, bus), MemoryAfter(e, bus, mem), script[1..];
      }
    }

    /** One message. */
    method Next(token: nat, armed: bool) returns (expired: bool, blocked: bool)
      modifies this`bus, this`mem, this`script, this`x
      ensures blocked == (old(script) == [])
      ensures blocked ==> script == [] && View() == old(View())
      ensures !blocked ==> script == old(script)[1..] && View() == Happened(old(script)[0], old(View()))
      ensures expired == (!blocked && armed && old(script)[0] == Timer(token))
    {
      var m;
      m, blocked := Receive();
      expired := false;
      match m
      case OutReply(res) => x := x.(outDone := true, outRes := res);
      case InReply(res) => x := x.(inDone := true, inRes := res);
      case Token(t) => expired := armed && t == token;
      case Nothing =>
    }

    /** The receive loop: until both completions, the timer, or no more messages. */
    method Drain(token: nat, armed: bool) returns (expired: bool, blocked: bool)
      modifies this`bus, this`mem, this`script, this`x
      ensures UsbState.Drain(View(), script, expired) == Drained(old(View()), old(script), token, armed)
      ensures blocked == (!expired && !Done(View())) && (expired ==> !Done(View()))
    {
      expired, blocked := false, false;
      while !expired && !blocked && !(x.outDone && x.inDone)
        invariant expired ==>
          !Done(View()) && UsbState.Drain(View(), script, true) == Drained(old(View()), old(script), token, armed)
        invariant !expired ==> Drained(View(), script, token, armed) == Drained(old(View()), old(script), token, armed)
        invariant blocked ==> script == [] && !expired && !Done(View())
        decreases |script|, !blocked
      {
        expired, blocked := Next(token, armed);
      }
    }

    method Complete()
      modifies this`x, this`postReady, this`postRes, this`results, this`failed, this`sources
      ensures View() == Completed(old(View()))
    {
      x := x.(busy := false);
      if x.isPost {
        x := x.(isPost := false);
        postRes, postReady := Result(x), true;
      }
      results := results[bus.serial := Result(x)];
      if x.inRes < 0 {
        failed := failed + [bus.serial];
      } else {
        sources := sources[bus.serial := bus.taken];
      }
    }

    /** The loop, and what follows it. */
    method Settle(token: nat, armed: bool) returns (r: Outcome)
      modifies this`bus, this`mem, this`script, this`x, this`postReady, this`postRes, this`results, this`failed,
        this`sources
      ensures Step(View(), script, token, r) == Settles(Drained(old(View()), old(script), token, armed), token)
    {
      var expired, blocked := Drain(token, armed);
      if blocked {
        r := Blocked;
      } else if expired {
        r := Returned(TIMEOUT);
      } else {
        Complete();
        r := Returned(0);
      }
    }

    /** xs_wait: on a timeout the exchange stays on the wire. */
    method Wait(timeout: nat, timerStarts: bool) returns (r: Outcome)
      modifies this`bus, this`mem, this`script, this`x, this`tok, this`postReady, this`postRes, this`results,
        this`failed, this`sources
      ensures Step(View(), script, tok, r) == Waits(old(View()), old(script), old(tok), timeout, timerStarts)
    {
      r := Returned(0);
      if x.busy {
        var armed := false;
        if timeout > 0 {
          tok := (tok + 1) % 0x1_0000;
          armed := timerStarts;
        }
        r := Settle(tok, armed);
      }
    }

    /** xs_post. */
    method Start(request: seq<byte>, buf: nat, cap: nat, isPost: bool, calls: Calls) returns (r: int)
      modifies this`x, this`bus, this`dead
      ensures (View(), r) == Launched(old(View()), request, buf, cap, isPost, calls)
    {
      if dead {
        r := DEAD;
      } else if x.busy {
        r := BUSY;
      } else {
        x := Exchange(false, isPost, false, false, 0, 0, |request|, buf, cap);
        r := calls.inStart;
        if r >= 0 {
          x := x.(busy := true);
          r := Submit(request, calls.outStart);
        }
      }
    }

    /** The reply read and then the request go to the bus. */
    method Submit(request: seq<byte>, outStart: int) returns (r: int)
      modifies this`x, this`bus, this`dead
      ensures r == if outStart < 0 then DEAD else 0
      ensures dead == (old(dead) || outStart < 0)
      ensures x == if outStart < 0 then old(x).(outDone := true, outRes := outStart) else old(x)
      ensures bus == Started(old(View()), request, x.inBuf, x.inCap, x.isPost, outStart).bus
    {
      var k := bus.serial + 1;
      bus := bus.(ins := bus.ins + [Read(x.inBuf, x.inCap)], serial := k, asked := bus.asked[k := request]);
      if outStart < 0 {
        bus := bus.(lost := bus.lost + [k]);
        x, dead := x.(outDone := true, outRes := outStart), true;
        r := DEAD;
      } else {
        bus := bus.(outs := bus.outs + 1, sending := true);
        r := 0;
      }
    }

    /** The framing byte behind a request whose length is a multiple of 64. */
    method Pad(out: nat, len: nat) returns (request: seq<byte>)
      requires out in mem && |Framed(Text(mem, out, len))| <= |mem[out]| && len <= |mem[out]|
      modifies this`mem
      ensures request == Framed(Text(old(mem), out, len))
      ensures mem == old(mem)[out := Overlay(old(mem)[out], request)]
    {
      var n := len;
      if n % 64 == 0 {
        mem := mem[out := mem[out][n := 0]];
        n := n + 1;
      }
      request := mem[out][..n];
      assert mem[out] == Overlay(old(mem)[out], request);
    }

    /** ra_usb_post: the exchange goes on the wire and the call returns at once. */
    method Post(tx: nat, txLen: nat, rx: nat, rxCap: nat, calls: Calls) returns (r: int)
      requires Valid() && Postable(View(), tx, txLen, rx, rxCap) && txLen <= |mem[tx]|
      modifies this`x, this`bus, this`dead, this`mem, this`postOpen, this`postReady, this`post
      ensures Valid()
      ensures !old(up) ==> r == DEAD && View() == old(View())
      ensures old(up) ==>
        && r == PostCode(old(View()), PostFits(tx, txLen, rx, rxCap), calls)
        && PutOut(old(View()), View(), old(mem)[tx][..txLen], rx, r)
      ensures forall b :: b in old(mem) && b != tx ==> b in mem && mem[b] == old(mem)[b]
      ensures old(up) ==> (View(), r) == Posts(old(View()), tx, txLen, rx, rxCap, calls)
    {
      PostsKeeps(View(), tx, txLen, rx, rxCap, calls);
      if !up {
        r := DEAD;
      } else if x.busy || postOpen {
        r := BUSY;
      } else if txLen > TX_MAX || !DmaOk(tx, txLen + 1) || !DmaOk(rx, rxCap) {
        r := BAD_BUFFER;
      } else {
        r := Open(tx, txLen, rx, rxCap, calls);
      }
    }

    /** The post proper. */
    method Open(tx: nat, txLen: nat, rx: nat, rxCap: nat, calls: Calls) returns (r: int)
      requires Postable(View(), tx, txLen, rx, rxCap) && txLen <= |mem[tx]|
      modifies this`x, this`bus, this`dead, this`mem, this`postOpen, this`postReady, this`post
      ensures (View(), r) == Posting(old(View()), tx, txLen, rx, rxCap, calls)
    {
      var request := Pad(tx, txLen);
      r := Start(request, rx, rxCap, true, calls);
      if r >= 0 {
        postOpen, postReady := true, false;
        post := Posted(bus.serial, x.inBuf, At(mem, x.inBuf));
      }
    }

    /** ra_usb_reap: the posted exchange ends exactly once, with its own result. */
    method Reap(timeout: nat, timerStarts: bool) returns (r: Outcome)
      requires Valid()
      modifies this`bus, this`mem, this`script, this`x, this`tok, this`postReady, this`postRes, this`results,
        this`failed, this`sources, this`postOpen
      ensures Valid()
      ensures !old(postOpen) ==> r == Returned(IDLE) && View() == old(View())
      ensures old(postOpen) ==> Reaped(old(View()), View(), r)
      ensures Step(View(), script, tok, r) == Reaps(old(View()), old(script), old(tok), timeout, timerStarts)
    {
      if !postOpen {
        r := Returned(IDLE);
      } else {
        ReapsKeeps(View(), script, tok, timeout, timerStarts);
        r := Returned(0);
        if !postReady {
          r := Wait(if timeout > 0 then timeout else 1, timerStarts);
        }
        if r == Returned(0) {
          postOpen, postReady := false, false;
          r := Returned(postRes);
        }
      }
    }

    /** Start, wait, result. */
    method RoundTrip(request: seq<byte>, buf: nat, cap: nat, timeout: nat, calls: Calls) returns (r: Outcome)
      modifies this`bus, this`mem, this`script, this`x, this`tok, this`postReady, this`postRes, this`results,
        this`failed, this`sources, this`dead
      ensures Step(View(), script, tok, r)
           == RoundTrips(old(View()), old(script), old(tok), request, buf, cap, timeout, calls)
    {
      var code := Start(request, buf, cap, false, calls);
      if code < 0 {
        r := Returned(code);
      } else {
        r := Wait(timeout, calls.secondTimer);
        if r == Returned(0) {
          r := Returned(Result(x));
        }
      }
    }

    /** The part of the reply the caller asked for, from the bounce buffer. */
    method CopyOut(rx: nat, rxLen: nat, skip: nat)
      requires rx in mem && SMALL_IN in mem && rx != SMALL_IN && 0 <= x.inRes <= |mem[SMALL_IN]|
      modifies this`mem
      ensures View() == Copied(old(View()), rx, rxLen, skip)
      ensures forall j :: 0 <= j < rxLen && j < |mem[rx]| ==>
        mem[rx][j] == if skip + j < x.inRes then mem[SMALL_IN][skip + j] else 0
    {
      var out := seq(rxLen, _ => 0);
      if x.inRes > skip {
        var c := x.inRes - skip;
        if c > rxLen {
          c := rxLen;
        }
        out := mem[SMALL_IN][skip..skip + c] + out[c..];
      }
      assert out == Window(Front(mem[SMALL_IN], x.inRes), skip, rxLen);
      mem := mem[rx := Overlay(mem[rx], out)];
    }

    /** The framed request: from the bounce buffer when it is short, in place otherwise. */
    method Stage(job: Job) returns (request: seq<byte>)
      requires Bounces(mem) && Usable(View(), job)
      modifies this`mem
      ensures request == Framed(Text(old(mem), job.tx, job.txLen)) && mem == Staged(old(mem), job)
    {
      if job.txLen + 1 <= SMALL_OUT_SIZE {
        mem := mem[SMALL_OUT := Overlay(mem[SMALL_OUT], mem[job.tx][..job.txLen])];
        request := Pad(SMALL_OUT, job.txLen);
        assert mem[SMALL_OUT] == Overlay(old(mem)[SMALL_OUT], request);
      } else {
        request := Pad(job.tx, job.txLen);
      }
    }

    /** The framed request goes out; the reply comes in directly or through the bounce buffer. */
    method Carry(request: seq<byte>, job: Job, timeout: nat, calls: Calls) returns (r: Outcome)
      requires Valid() && !x.busy && ReplyFits(job)
      requires job.rx.Some? ==>
        && job.rx.value in mem && job.rx.value != SMALL_IN && job.rxLen <= |mem[job.rx.value]|
        && (postOpen ==> job.rx.value != post.buf)
      modifies this`bus, this`mem, this`script, this`x, this`tok, this`postReady, this`postRes, this`results,
        this`failed, this`sources, this`dead
      ensures Step(View(), script, tok, r) == Carries(old(View()), old(script), old(tok), request, job, timeout, calls)
    {
      var buf, cap := SMALL_IN, SMALL_IN_SIZE;
      if IsDirect(job) {
        buf, cap := job.rx.value, job.rxLen;
      }
      RoundTripsKeeps(View(), script, tok, request, buf, cap, timeout, calls);
      r := RoundTrip(request, buf, cap, timeout, calls);
      if r == Returned(0) && !IsDirect(job) && job.rx.Some? && job.rxLen > 0 {
        CopyOut(job.rx.value, job.rxLen, job.skip);
      }
    }

    /** The exchange proper, once the wire is free. */
    method Serve(job: Job, timeout: nat, calls: Calls) returns (r: Outcome)
      requires Valid() && !x.busy && Usable(View(), job)
      modifies this`bus, this`mem, this`script, this`x, this`tok, this`postReady, this`postRes, this`results,
        this`failed, this`sources, this`dead
      ensures Step(View(), script, tok, r) == Serves(old(View()), old(script), old(tok), job, timeout, calls)
    {
      r := Returned(BAD_BUFFER);
      if RequestFits(job) {
        StagedKeeps(View(), job);
        var request := Stage(job);
        if ReplyFits(job) {
          r := Carry(request, job, timeout, calls);
        }
      }
    }

    /** ra_usb_xfer: a blocking exchange, behind whatever is still on the wire. */
    method Xfer(job: Job, timeout: nat, calls: Calls) returns (r: Outcome)
      requires Valid() && Usable(View(), job)
      modifies this`bus, this`mem, this`script, this`x, this`tok, this`postReady, this`postRes, this`results,
        this`failed, this`sources, this`dead
      ensures Valid()
      ensures !old(up) ==> r == Returned(DEAD) && View() == old(View())
      ensures old(up) ==> Transferred(old(View()), View(), job, calls, r)
      ensures old(up) ==>
        Step(View(), script, tok, r) == Transfers(old(View()), old(script), old(tok), job, timeout, calls)
      ensures r == Returned(0) && job.rx.Some? ==>
        bus.taken in bus.answers && Handed(At(mem, job.rx.value), job, bus.answers[bus.taken])
    {
      ghost var s := View();
      r := Transact(job, timeout, calls);
      if r == Returned(0) && job.rx.Some? {
        TransferHands(s, View(), job, calls);
      }
    }

    /** The wait for the wire, and the exchange. */
    method Transact(job: Job, timeout: nat, calls: Calls) returns (r: Outcome)
      requires Valid() && Usable(View(), job)
      modifies this`bus, this`mem, this`script, this`x, this`tok, this`postReady, this`postRes, this`results,
        this`failed, this`sources, this`dead
      ensures Valid()
      ensures !old(up) ==> r == Returned(DEAD) && View() == old(View())
      ensures old(up) ==> Transferred(old(View()), View(), job, calls, r)
      ensures old(up) ==>
        Step(View(), script, tok, r) == Transfers(old(View()), old(script), old(tok), job, timeout, calls)
    {
      ghost var s0, es0, tok0 := View(), script, tok;
      r := Returned(DEAD);
      if up {
        WaitsKeeps(View(), script, tok, timeout, calls.firstTimer);
        ghost var s := View();
        r := Wait(timeout, calls.firstTimer);
        if r == Returned(0) {
          if s.x.busy {
            WaitLeaves(s, View(), job, r);
          }
          r := Serve(job, timeout, calls);
        } else if r.Returned? {
          r := Returned(BUSY);
        }
        ghost var w := Step(View(), script, tok, r);
        StepTransfers(s0, es0, tok0, job, timeout, calls, w);
      }
    }

    /** The wire moves on between two calls. */
    method Elapse(e: Event)
      requires Valid() && (e.Arrive? || e.Answer? || e.Land?)
      modifies this`bus, this`mem
      ensures Valid() && View() == Happened(e, old(View()))
    {
      EventKeeps(e, View());
      bus, mem := After(e, bus), MemoryAfter(e, bus, mem);
    }

    /** The host writes into one of its buffers, also one that a timed-out exchange still reads into. */
    method Fill(b: nat, c: seq<byte>)
      requires Valid() && b in mem && |c| == |mem[b]| && (postOpen ==> b != post.buf)
      modifies this`mem
      ensures Valid() && View() == old(View()).(mem := old(mem)[b := c])
    {
      TouchKeeps(View(), b, c);
      mem := mem[b := c];
    }
  }
}
