/** The main loop above the link: collect the last reply, exchange what is pending, post the next snapshot. */
module UsbPipeline {
  import opened Options
  import opened Bytes
  import opened UsbBus
  import opened UsbExchange
  import opened UsbState
  import opened UsbTransfer
  import opened UsbRuns
  import opened UsbLink

  const TX_BUF := 0x136F_0000
  const RX_BUF := 0x136F_4000
  const LOG_BUF := 0x136F_8000
  const TX_SIZE := 8192
  const RX_SIZE := 2080
  const LOG_SIZE := 260
  /** The request and the reply of a chunk fetch. */
  const ASK_BUF := 0x136F_A000
  const CHUNK_BUF := 0x136F_C000
  const ASK_SIZE := 6
  const CHUNK_SIZE := 4120
  /** Address rounds in one turn. */
  const MAX_ROUNDS := 12

  /** The posted exchanges whose result was 0, in order. */
  function Succeeded(posts: seq<nat>, results: map<nat, int>): (r: seq<nat>) {
    if posts == [] then []
    else
      var k := posts[|posts| - 1];
      Succeeded(posts[..|posts| - 1], results) + if k in results && results[k] == 0 then [k] else []
  }

  /** These and no others. */
  lemma {:induction false} SucceededIs(posts: seq<nat>, results: map<nat, int>)
    ensures forall k: nat :: k in Succeeded(posts, results) <==> k in posts && k in results && results[k] == 0
    ensures |Succeeded(posts, results)| <= |posts|
  {
    if posts != [] {
      SucceededIs(posts[..|posts| - 1], results);
    }
  }

  lemma {:induction false} SucceededKept(posts: seq<nat>, s: State, t: State)
    requires Onward(s, t) && forall i :: 0 <= i < |posts| ==> posts[i] in s.results
    ensures Succeeded(posts, t.results) == Succeeded(posts, s.results)
  {
    if posts != [] {
      SucceededKept(posts[..|posts| - 1], s, t);
    }
  }

  /** Without the one that is still open. */
  function Settled(posts: seq<nat>, open: bool): (r: seq<nat>) {
    if open && posts != [] then posts[..|posts| - 1] else posts
  }

  predicate Buffers(mem: Memory) {
    && TX_BUF in mem && |mem[TX_BUF]| == TX_SIZE && RX_BUF in mem && |mem[RX_BUF]| == RX_SIZE
    && LOG_BUF in mem && |mem[LOG_BUF]| == LOG_SIZE && ASK_BUF in mem && |mem[ASK_BUF]| == ASK_SIZE
    && CHUNK_BUF in mem && |mem[CHUNK_BUF]| == CHUNK_SIZE
  }

  /** What an exchange that timed out may still read into. */
  predicate Replies(b: nat) { b == RX_BUF || b == CHUNK_BUF || b == SMALL_IN }

  /**
   * Every reply of a successful snapshot was parsed once, in order; the one still open is the latest,
   * and its buffer had been cleared.
   */
  predicate Books(s: State, posts: seq<nat>, parsed: seq<nat>) {
    && Buffers(s.mem)
    && (s.x.busy ==> Replies(s.x.inBuf))
    && (s.postOpen ==>
          posts != [] && s.post.serial == posts[|posts| - 1] && s.post.buf == RX_BUF && s.post.before == Zeros(RX_SIZE))
    && (forall i :: 0 <= i < |Settled(posts, s.postOpen)| ==> posts[i] in s.results)
    && parsed == Succeeded(Settled(posts, s.postOpen), s.results)
  }

  lemma {:induction false} BooksKept(s: State, t: State, posts: seq<nat>, parsed: seq<nat>, rx: nat)
    requires Books(s, posts, parsed) && Onward(s, t) && SamePost(s, t) && WireAt(s, t, Some(rx)) && Replies(rx)
    ensures Books(t, posts, parsed)
  {
    SucceededKept(Settled(posts, s.postOpen), s, t);
  }

  lemma {:induction false} BooksReaped(s: State, t: State, posts: seq<nat>, parsed: seq<nat>, o: Outcome)
    requires Books(s, posts, parsed) && s.postOpen && Reaped(s, t, o) && !t.postOpen
    ensures Books(t, posts, if o == Returned(0) then parsed + [s.post.serial] else parsed)
  {
    SucceededKept(Settled(posts, true), s, t);
    assert Settled(posts, true) == posts[..|posts| - 1];
  }

  lemma {:induction false} BooksPosted(s: State, t: State, posts: seq<nat>, parsed: seq<nat>)
    requires Books(s, posts, parsed) && !s.postOpen && t.postOpen && t.results == s.results && Onward(s, t)
    requires WireAt(s, t, Some(RX_BUF)) && t.post.buf == RX_BUF && t.post.serial == t.bus.serial
    requires t.post.before == Zeros(RX_SIZE)
    ensures Books(t, posts + [t.bus.serial], parsed)
  {
    assert Settled(posts + [t.bus.serial], true) == posts;
  }

  /** The answer, with zeros behind it. */
  lemma {:induction false} ClearedHolds(bus: Bus, mem: Memory, k: nat)
    requires HasReply(bus, mem, k, RX_BUF, Zeros(RX_SIZE))
    ensures mem[RX_BUF] == Window(bus.answers[k], 0, RX_SIZE)
  {
    DirectExactly(Zeros(RX_SIZE), bus.answers[k], RX_SIZE);
  }

  /** The blocking exchange through the snapshot buffers, and the one that logs. */
  function RoundJob(n: nat): (j: Job) { Job(TX_BUF, n, Some(RX_BUF), RX_SIZE, 0) }

  function LogJob(n: nat): (j: Job) { Job(LOG_BUF, n, None, 0, 0) }

  function ChunkJob(n: nat): (j: Job) { Job(ASK_BUF, n, Some(CHUNK_BUF), CHUNK_SIZE, 0) }

  /** What a resync puts on the wire: chunk requests, and a line of log when one was retried or failed. */
  datatype Errand = Ask(request: seq<byte>) | Say(line: seq<byte>)

  predicate Sendable(e: Errand) {
    match e
    case Ask(request) => |request| <= ASK_SIZE
    case Say(line) => |line| <= LOG_SIZE
  }

  /** The parser, as far as the turn looks at it: the addresses a reply asks for, if it does. */
  type Parser = seq<byte> -> Option<seq<nat>>

  function AskedFor(parse: Parser, reply: seq<byte>, before: seq<nat>): (q: seq<nat>) {
    match parse(reply)
    case None => before
    case Some(asked) => asked
  }

  lemma {:induction false} RoundExact(s: State, es: seq<Event>, tok: nat, n: nat, timeout: nat, calls: Calls, w: Step)
    requires Ok(s) && Usable(s, RoundJob(n)) && Buffers(s.mem) && s.mem[RX_BUF] == Zeros(RX_SIZE)
    requires !Exposed(s, RoundJob(n))
    requires w == Transfers(s, es, tok, RoundJob(n), timeout, calls) && w.outcome == Returned(0) && Buffers(w.state.mem)
    requires w.state.bus.taken in w.state.bus.answers
    ensures w.state.mem[RX_BUF] == Window(w.state.bus.answers[w.state.bus.taken], 0, RX_SIZE)
  {
    HiddenIsExact(s, RoundJob(n), es, tok, timeout, calls);
  }

  class Console {
    const link: Link
    /** The snapshots put on the wire, and those whose reply was parsed, by request number. */
    ghost var posts: seq<nat>
    ghost var parsed: seq<nat>
    /** The addresses the adapter asked for and has not got. */
    var pending: seq<nat>

    ghost predicate Valid()
      reads this, link
    {
      link.Valid() && Books(link.View(), posts, parsed)
    }

    constructor (l: Link)
      requires l.Valid() && !l.postOpen && !l.x.busy && Buffers(l.mem)
      ensures Valid() && link == l && posts == [] && parsed == [] && pending == []
    {
      link, posts, parsed, pending := l, [], [], [];
    }

    /** Put a message at the front of a request buffer. */
    method Compose(b: nat, text: seq<byte>)
      requires Valid() && (b == TX_BUF || b == LOG_BUF || b == ASK_BUF) && |text| <= |link.mem[b]|
      modifies link`mem
      ensures Valid() && link.View() == old(link.View()).(mem := link.mem)
      ensures link.mem == old(link.mem)[b := Overlay(old(link.mem)[b], text)] && Text(link.mem, b, |text|) == text
    {
      ghost var s := link.View();
      link.Fill(b, Overlay(link.mem[b], text));
      BooksKept(s, link.View(), posts, parsed, RX_BUF);
    }

    /** The next message stands in the snapshot buffer, and the reply buffer is cleared. */
    method Prepare(text: seq<byte>)
      requires Valid() && !link.postOpen && |text| < TX_SIZE
      modifies link`mem
      ensures Valid() && link.View() == old(link.View()).(mem := link.mem)
      ensures Text(link.mem, TX_BUF, |text|) == text && link.mem[RX_BUF] == Zeros(RX_SIZE)
    {
      Compose(TX_BUF, text);
      ghost var s := link.View();
      link.Fill(RX_BUF, Zeros(RX_SIZE));
      BooksKept(s, link.View(), posts, parsed, RX_BUF);
    }

    /** ra_snap_collect: a reply is handed to the parser when its exchange succeeded, and only then. */
    method Collect(timeout: nat, timerStarts: bool) returns (r: Outcome, reply: Option<seq<byte>>)
      requires Valid()
      modifies this`parsed, link
      ensures Valid() && posts == old(posts)
      ensures !old(link.postOpen) ==> r == Returned(0) && reply.None? && link.View() == old(link.View())
      ensures old(link.postOpen) ==> (reply.Some? <==> !link.postOpen && link.results[old(link.post.serial)] == 0)
      ensures link.postOpen ==> old(link.postOpen) && link.x.busy && (r == Returned(TIMEOUT) || r == Blocked)
      ensures r == Returned(0) ==> !link.postOpen
      ensures reply.Some? ==>
        && old(link.postOpen) && parsed == old(parsed) + [old(link.post.serial)]
        && old(link.post.serial) in link.sources && link.sources[old(link.post.serial)] in link.bus.answers
        && reply.value == Window(link.bus.answers[link.sources[old(link.post.serial)]], 0, RX_SIZE)
      ensures reply.Some? ==>
        var k := old(link.post.serial);
        GotOwn(link.View(), k) <==> Below(link.bus.lost, k) == Below(link.failed, k)
      ensures reply.Some? ==> r == Returned(0)
      ensures reply.None? ==> parsed == old(parsed)
    {
      r, reply := Returned(0), None;
      ghost var s := link.View();
      if link.postOpen {
        r := link.Reap(timeout, timerStarts);
        if link.postOpen {
          BooksKept(s, link.View(), posts, parsed, RX_BUF);
        } else {
          BooksReaped(s, link.View(), posts, parsed, r);
        }
        if r == Returned(0) {
          reply := Some(link.mem[RX_BUF]);
          parsed := parsed + [s.post.serial];
          OwnReplyExactly(link.View(), s.post.serial);
          ClearedHolds(link.bus, link.mem, link.sources[s.post.serial]);
        } else if r.Returned? && r.code != TIMEOUT {
          r := Returned(0);
        }
      }
    }

    /** ra_send_addr_response: a blocking exchange between two snapshots, through the same buffers. */
    method Round(text: seq<byte>, timeout: nat, calls: Calls) returns (r: Outcome)
      requires Valid() && !link.postOpen && |text| < TX_SIZE
      modifies link
      ensures Valid() && !link.postOpen
      ensures r == Returned(0) ==>
        && link.bus.serial == old(link.bus.serial) + 1
        && link.bus.asked == old(link.bus.asked)[link.bus.serial := Framed(text)]
        && link.bus.taken in link.bus.answers
        && (GotOwn(link.View(), link.bus.serial) <==> |link.bus.lost| == |link.failed|)
      ensures r == Returned(0) && !Exposed(old(link.View()), RoundJob(|text|)) ==>
        link.mem[RX_BUF] == Window(link.bus.answers[link.bus.taken], 0, RX_SIZE)
    {
      Prepare(text);
      ghost var s := link.View();
      ghost var es, tok := link.script, link.tok;
      var job := RoundJob(|text|);
      r := link.Xfer(job, timeout, calls);
      BooksKept(s, link.View(), posts, parsed, RX_BUF);
      if r == Returned(0) {
        OwnLast(link.View());
      }
      if r == Returned(0) && !Exposed(s, job) {
        RoundExact(s, es, tok, |text|, timeout, calls, Step(link.View(), link.script, link.tok, r));
      }
    }

    /** ra_debug_send_always: a blocking exchange whose reply is dropped; a snapshot may be open. */
    method Debug(text: seq<byte>, timeout: nat, calls: Calls) returns (r: Outcome)
      requires Valid() && |text| <= LOG_SIZE
      modifies link
      ensures Valid()
      ensures link.postOpen == old(link.postOpen) && link.post == old(link.post)
      ensures r == Returned(0) && link.postOpen ==> link.postReady
      ensures old(link.postOpen) && old(link.postReady) ==> link.mem[RX_BUF] == old(link.mem)[RX_BUF]
      ensures r == Returned(0) ==>
        && link.bus.serial == old(link.bus.serial) + 1
        && link.bus.asked == old(link.bus.asked)[link.bus.serial := Framed(text)]
    {
      Compose(LOG_BUF, text);
      ghost var s := link.View();
      r := link.Xfer(LogJob(|text|), timeout, calls);
      BooksKept(s, link.View(), posts, parsed, RX_BUF);
    }

    /** The tail of ra_send_snapshot: the next snapshot goes on the wire. */
    method Snapshot(text: seq<byte>, calls: Calls) returns (r: int)
      requires Valid() && !link.postOpen && |text| < TX_SIZE
      modifies this`posts, link
      ensures Valid() && parsed == old(parsed)
      ensures r == 0 <==>
        old(link.up) && !old(link.x.busy) && !old(link.dead) && calls.inStart >= 0 && calls.outStart >= 0
      ensures link.postOpen == (r == 0)
      ensures r == 0 ==> link.bus.asked == old(link.bus.asked)[link.bus.serial := Framed(text)]
      ensures posts == if r == 0 then old(posts) + [link.bus.serial] else old(posts)
    {
      Prepare(text);
      r := Send(|text|, calls);
    }

    /** What Prepare laid out, posted. */
    method Send(n: nat, calls: Calls) returns (r: int)
      requires Valid() && !link.postOpen && n < TX_SIZE && link.mem[RX_BUF] == Zeros(RX_SIZE)
      modifies this`posts, link
      ensures Valid() && parsed == old(parsed)
      ensures r == 0 <==>
        old(link.up) && !old(link.x.busy) && !old(link.dead) && calls.inStart >= 0 && calls.outStart >= 0
      ensures link.postOpen == (r == 0)
      ensures r == 0 ==>
        link.bus.asked == old(link.bus.asked)[link.bus.serial := Framed(Text(old(link.mem), TX_BUF, n))]
      ensures posts == if r == 0 then old(posts) + [link.bus.serial] else old(posts)
    {
      ghost var s := link.View();
      r := link.Post(TX_BUF, n, RX_BUF, RX_SIZE, calls);
      if r == 0 {
        BooksPosted(s, link.View(), posts, parsed);
        posts := posts + [link.bus.serial];
      } else {
        BooksKept(s, link.View(), posts, parsed, RX_BUF);
      }
    }

    /** One request of ra_fetch_watchlist: a blocking exchange through buffers of its own. */
    method Chunk(text: seq<byte>, timeout: nat, calls: Calls) returns (r: Outcome)
      requires Valid() && !link.postOpen && |text| <= ASK_SIZE
      modifies link
      ensures Valid() && !link.postOpen
      ensures r == Returned(0) ==>
        && link.bus.serial == old(link.bus.serial) + 1
        && link.bus.asked == old(link.bus.asked)[link.bus.serial := Framed(text)]
    {
      Compose(ASK_BUF, text);
      ghost var s := link.View();
      link.Fill(CHUNK_BUF, Zeros(CHUNK_SIZE));
      BooksKept(s, link.View(), posts, parsed, RX_BUF);
      s := link.View();
      r := link.Xfer(ChunkJob(|text|), timeout, calls);
      BooksKept(s, link.View(), posts, parsed, CHUNK_BUF);
    }

    /** The address rounds: while addresses are pending, at most twelve. */
    method Answer(values: (nat, seq<nat>) -> seq<byte>, parse: Parser, timeout: nat, calls: nat -> Calls)
      returns (r: Outcome, rounds: nat)
      requires Valid() && !link.postOpen && forall i, q :: |values(i, q)| < TX_SIZE
      modifies this`pending, link
      ensures Valid() && !link.postOpen && rounds <= MAX_ROUNDS
      ensures r == Blocked || (r == Returned(0) && (pending == [] || rounds == MAX_ROUNDS))
      ensures old(pending) == [] ==> rounds == 0 && pending == [] && link.View() == old(link.View())
    {
      r, rounds := Returned(0), 0;
      while rounds < MAX_ROUNDS && pending != []
        invariant Valid() && !link.postOpen && rounds <= MAX_ROUNDS
        invariant old(pending) == [] ==> rounds == 0 && pending == [] && link.View() == old(link.View())
      {
        r := Round(values(rounds, pending), timeout, calls(rounds));
        if r == Returned(0) {
          pending := AskedFor(parse, link.mem[RX_BUF], []);
        } else if r == Blocked {
          return;
        }
        rounds := rounds + 1;
      }
      r := Returned(0);
    }

    /** ra_do_resync. */
    method Resync(errands: seq<Errand>, timeout: nat, calls: nat -> Calls) returns (r: Outcome)
      requires Valid() && !link.postOpen && forall i :: 0 <= i < |errands| ==> Sendable(errands[i])
      modifies link
      ensures Valid() && !link.postOpen && (r == Blocked || r == Returned(0))
    {
      r := Returned(0);
      var i := 0;
      while i < |errands|
        invariant Valid() && !link.postOpen && i <= |errands|
      {
        assert Sendable(errands[i]);
        match errands[i] {
          case Ask(request) => r := Chunk(request, timeout, calls(i));
          case Say(line) => r := Debug(line, timeout, calls(i));
        }
        if r == Blocked {
          return;
        }
        i := i + 1;
      }
      r := Returned(0);
    }

    /** What comes between the reply of one snapshot and the next one, and that one. */
    method Proceed(text: seq<byte>, values: (nat, seq<nat>) -> seq<byte>, parse: Parser, errands: seq<Errand>,
                   timeout: nat, calls: nat -> Calls)
      returns (r: Outcome, rounds: nat)
      requires Valid() && !link.postOpen && |text| < TX_SIZE && forall i, q :: |values(i, q)| < TX_SIZE
      requires forall i :: 0 <= i < |errands| ==> Sendable(errands[i])
      modifies this`posts, this`pending, link
      ensures Valid() && rounds <= MAX_ROUNDS && (r == Blocked || r == Returned(0))
      ensures parsed == old(parsed) && (old(pending) == [] ==> rounds == 0)
      ensures posts == old(posts) || (posts == old(posts) + [link.bus.serial] && link.postOpen && r == Returned(0))
      ensures |posts| > |old(posts)| ==>
        parsed == Succeeded(old(posts), link.results) && (pending == [] || rounds == MAX_ROUNDS)
    {
      r, rounds := Answer(values, parse, timeout, calls);
      if r == Returned(0) {
        r := Resync(errands, timeout, (i: nat) => calls(MAX_ROUNDS + i));
      }
      if r == Returned(0) {
        var code := Snapshot(text, calls(MAX_ROUNDS + |errands|));
      }
    }

    /**
     * One turn of the main loop: the last reply, the addresses it asks for, a resync, and then the next snapshot.
     * While the last snapshot is still in flight the turn is skipped.
     */
    method Fire(text: seq<byte>, values: (nat, seq<nat>) -> seq<byte>, parse: Parser, errands: seq<Errand>,
                timeout: nat, timerStarts: bool, calls: nat -> Calls)
      returns (r: Outcome, reply: Option<seq<byte>>, rounds: nat)
      requires Valid() && |text| < TX_SIZE && forall i, q :: |values(i, q)| < TX_SIZE
      requires forall i :: 0 <= i < |errands| ==> Sendable(errands[i])
      modifies this`posts, this`parsed, this`pending, link
      ensures Valid() && rounds <= MAX_ROUNDS
      ensures posts == old(posts) || (posts == old(posts) + [link.bus.serial] && link.postOpen && r == Returned(0))
      ensures |posts| > |old(posts)| ==>
        parsed == Succeeded(old(posts), link.results) && (pending == [] || rounds == MAX_ROUNDS)
      ensures parsed == if reply.Some? then old(parsed) + [old(link.post.serial)] else old(parsed)
      ensures r != Returned(0) && r != Blocked ==>
        rounds == 0 && pending == old(pending) && posts == old(posts)
      ensures old(pending) == [] && reply.None? ==> rounds == 0
    {
      rounds := 0;
      r, reply := Collect(timeout, timerStarts);
      if reply.Some? {
        pending := AskedFor(parse, reply.value, pending);
      }
      if r == Returned(0) {
        r, rounds := Proceed(text, values, parse, errands, timeout, calls);
      }
    }
  }
}
