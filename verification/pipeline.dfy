/**
 The send pipeline of a connection as a state machine: payloads enter the output
 buffer, one write at a time leaves it, until the connection is closed or a write fails.
 */
module SendPipeline {
  import opened Chunks

  /** The state of the pipeline.  `whole` says whether `writePieceQueue` reads a link
      before it pushes the piece, as intended, or after, as written. */
  datatype Pipeline = Pipeline(
    whole: bool,
    open: bool,           // whether the connection is connected, so that sends are accepted
    sent: seq<byte>,      // bytes of completed writes
    lost: seq<byte>,      // bytes of a failed write
    flight: seq<Chunk>,   // writes handed to the socket
    out: seq<Chunk>,      // the output buffer
    sending: bool)

  function Idle(whole: bool): Pipeline {
    Pipeline(whole, true, [], [], [], [], false)
  }

  /** A payload arrives as a chain of pieces; the outstanding write completes, or fails;
      the connection is closed, after which writes still complete until its socket is. */
  datatype Event = Send(chain: seq<Chunk>) | Complete | Fail | Close

  /** Hands the first piece of the output buffer, coalesced, to the socket. */
  function Launched(p: Pipeline): Pipeline
    requires p.out != []
  {
    var t := Coalesced(p.out[0], p.out[1..]);
    p.(flight := p.flight + [t.first], out := t.rest, sending := true)
  }

  /** What of a chain reaches the output buffer: as written, only its head. */
  function Reaching(p: Pipeline, chain: seq<Chunk>): seq<Chunk>
    requires chain != []
  {
    if p.whole then chain else [chain[0]]
  }

  function AfterSend(p: Pipeline, chain: seq<Chunk>): Pipeline
    requires chain != []
  {
    var queued := p.(out := p.out + Reaching(p, chain));
    if !p.open then p else if p.sending then queued else Launched(queued)
  }

  function AfterComplete(p: Pipeline): Pipeline
    requires p.flight != []
  {
    var done := p.(sent := p.sent + p.flight[0].bytes, flight := p.flight[1..], sending := false);
    if |Flat(done.out)| > 0 then Launched(done) else done
  }

  function AfterFail(p: Pipeline): Pipeline
    requires p.flight != []
  {
    p.(lost := p.lost + p.flight[0].bytes, flight := p.flight[1..], sending := false, open := false)
  }

  ghost predicate ValidEvent(p: Pipeline, e: Event) {
    match e
    case Send(chain) => ValidChain(p, chain)
    case Complete => p.flight != []
    case Fail => p.flight != []
    case Close => true
  }

  /** No piece that reaches the output buffer is empty. */
  ghost predicate ValidChain(p: Pipeline, chain: seq<Chunk>) {
    chain != [] && AllOk(chain) && Dense(Reaching(p, chain))
  }

  function Next(p: Pipeline, e: Event): Pipeline
    requires ValidEvent(p, e)
  {
    match e
    case Send(chain) => AfterSend(p, chain)
    case Complete => AfterComplete(p)
    case Fail => AfterFail(p)
    case Close => p.(open := false)
  }

  /** Everything accepted so far, in order. */
  function Accepted(p: Pipeline): seq<byte> {
    p.sent + p.lost + Flat(p.flight) + Flat(p.out)
  }

  /** At most one write is outstanding, the flag says so, and bytes wait in the output
      buffer only behind it or behind the one that failed. */
  ghost predicate Inv(p: Pipeline) {
    && |p.flight| <= 1 && p.sending == (|p.flight| == 1)
    && AllOk(p.flight) && AllOk(p.out) && Dense(p.flight) && Dense(p.out)
    && (p.flight == [] && p.out != [] ==> p.lost != [])
    && (p.lost != [] ==> p.flight == [] && !p.open)
  }

  lemma ReachingFacts(p: Pipeline, chain: seq<Chunk>)
    requires ValidChain(p, chain)
    ensures var r := Reaching(p, chain);
            && r != [] && AllOk(r) && Dense(r) && r[0] == chain[0] && Flat(r) != []
            && Flat(r) == if p.whole then Flat(chain) else chain[0].bytes
  {
    FlatOne(chain[0]);
    FlatHead(Reaching(p, chain));
  }

  lemma SendCases(p: Pipeline, chain: seq<Chunk>)
    requires ValidChain(p, chain) && p.open
    ensures var queued := p.(out := p.out + Reaching(p, chain));
            && ValidEvent(p, Send(chain)) && queued.out != [] && |Flat(queued.out)| > 0
            && AfterSend(p, chain) == (if p.sending then queued else Launched(queued))
            && (Inv(p) && !p.sending ==> p.flight == [])
  {
    ReachingFacts(p, chain);
    FlatConcat(p.out, Reaching(p, chain));
  }

  lemma CompleteCases(p: Pipeline)
    requires Inv(p) && p.flight != []
    ensures |p.flight| == 1 && p.flight[1..] == [] && p.lost == []
    ensures var done := p.(sent := p.sent + p.flight[0].bytes, flight := [], sending := false);
            AfterComplete(p) == if |Flat(p.out)| > 0 && p.out != [] then Launched(done) else done
    ensures AfterFail(p) == p.(lost := p.flight[0].bytes, flight := [], sending := false, open := false)
  {
    FlatNotEmpty(p.out);
    assert [] + p.flight[0].bytes == p.flight[0].bytes;
  }

  lemma LaunchedFields(p: Pipeline)
    requires p.out != []
    ensures var t := Coalesced(p.out[0], p.out[1..]);
            Launched(p) == p.(flight := p.flight + [t.first], out := t.rest, sending := true)
  {
  }

  lemma LaunchedKeeps(p: Pipeline)
    requires p.out != [] && p.flight == [] && AllOk(p.out) && Dense(p.out) && p.lost == []
    ensures Inv(Launched(p)) && Accepted(Launched(p)) == Accepted(p)
  {
    hide Coalesced, Flat;
    var t := Coalesced(p.out[0], p.out[1..]);
    FlatHead(p.out);
    CoalescedExact(p.out[0], p.out[1..]);
    LaunchedFields(p);
    assert p.flight + [t.first] == [t.first];
    assert forall i | 0 <= i < |t.rest| :: t.rest[i] in p.out;
    FlatOne(t.first);
    NoneIsFlat();
    Regroup(p.sent + p.lost, t.first.bytes, Flat(t.rest));
  }

  lemma NoneIsFlat()
    ensures Flat([]) == []
  {
  }

  lemma Regroup(a: seq<byte>, b: seq<byte>, c: seq<byte>)
    ensures a + [] + (b + c) == a + b + c
  {
  }

  /** What a send adds to the bytes accepted. */
  function Added(p: Pipeline, chain: seq<Chunk>): seq<byte>
    requires chain != []
  {
    if !p.open then [] else if p.whole then Flat(chain) else chain[0].bytes
  }

  lemma SendKeeps(p: Pipeline, chain: seq<Chunk>)
    requires Inv(p) && ValidEvent(p, Send(chain))
    ensures Inv(AfterSend(p, chain)) && Accepted(AfterSend(p, chain)) == Accepted(p) + Added(p, chain)
  {
    hide Flat;
    if !p.open {
      assert Accepted(p) + [] == Accepted(p);
    } else {
      var r := Reaching(p, chain);
      var queued := p.(out := p.out + r);
      ReachingFacts(p, chain);
      FlatConcat(p.out, r);
      assert Accepted(queued) == Accepted(p) + Flat(r);
      if !p.sending {
        LaunchedKeeps(queued);
      }
    }
  }

  lemma CompleteKeeps(p: Pipeline)
    requires Inv(p) && p.flight != []
    ensures Inv(AfterComplete(p)) && Accepted(AfterComplete(p)) == Accepted(p)
    ensures Inv(AfterFail(p)) && Accepted(AfterFail(p)) == Accepted(p)
  {
    hide Flat;
    CompleteCases(p);
    AcceptedMoves(p);
    FlatNotEmpty(p.out);
    if |Flat(p.out)| > 0 && p.out != [] {
      LaunchedKeeps(p.(sent := p.sent + p.flight[0].bytes, flight := [], sending := false));
    }
  }

  /** Bytes in flight become bytes sent, or lost. */
  lemma AcceptedMoves(p: Pipeline)
    requires |p.flight| == 1 && p.lost == []
    ensures Accepted(p.(sent := p.sent + p.flight[0].bytes, flight := [], sending := false)) == Accepted(p)
    ensures Accepted(p.(lost := p.flight[0].bytes, flight := [], sending := false, open := false)) == Accepted(p)
  {
    assert p.flight == [p.flight[0]];
    FlatOne(p.flight[0]);
    Reassociate(p.sent, p.flight[0].bytes, Flat(p.out));
  }

  lemma Reassociate(a: seq<byte>, b: seq<byte>, c: seq<byte>)
    ensures a + b + [] + [] + c == a + [] + b + c
    ensures a + b + [] + c == a + [] + b + c
  {
    assert a + [] == a && a + b + [] == a + b;
  }

  // ---------------------------------------------------------------------
  // Runs
  // ---------------------------------------------------------------------

  ghost predicate ValidRun(p: Pipeline, events: seq<Event>)
    decreases |events|
  {
    events != [] ==> ValidEvent(p, events[0]) && ValidRun(Next(p, events[0]), events[1..])
  }

  function Run(p: Pipeline, events: seq<Event>): Pipeline
    requires ValidRun(p, events)
    decreases |events|
  {
    if events == [] then p else Run(Next(p, events[0]), events[1..])
  }

  /** The payloads sent before the connection was closed or a write failed. */
  function Sends(events: seq<Event>): seq<seq<Chunk>> {
    if events == [] then []
    else match events[0]
      case Send(chain) => [chain] + Sends(events[1..])
      case Complete => Sends(events[1..])
      case Fail => []
      case Close => []
  }

  /** The payloads, concatenated. */
  function Payloads(chains: seq<seq<Chunk>>): seq<byte> {
    if chains == [] then [] else Flat(chains[0]) + Payloads(chains[1..])
  }

  /** Their first pieces, concatenated. */
  function Heads(chains: seq<seq<Chunk>>): seq<byte> {
    if chains == [] then [] else (if chains[0] == [] then [] else chains[0][0].bytes) + Heads(chains[1..])
  }

  /** What a run accepts. */
  function Offered(p: Pipeline, events: seq<Event>): seq<byte> {
    if !p.open then [] else if p.whole then Payloads(Sends(events)) else Heads(Sends(events))
  }

  lemma OfferedCases(p: Pipeline, events: seq<Event>)
    requires events != [] && ValidEvent(p, events[0])
    ensures var q := Next(p, events[0]);
            Offered(p, events) == (if events[0].Send? then Added(p, events[0].chain) else []) + Offered(q, events[1..])
  {
    if events[0].Send? {
      assert Sends(events)[0] == events[0].chain && Sends(events)[1..] == Sends(events[1..]);
    }
  }

  /** Conservation: in every run, bytes sent, lost in a failed write, in flight and
      buffered are together what the payloads offered before the end put in, in order; at
      most one write is outstanding; and when none is and none failed, nothing is
      buffered. */
  lemma {:induction false} Conservation(p: Pipeline, events: seq<Event>)
    requires Inv(p) && ValidRun(p, events)
    ensures Inv(Run(p, events)) && Accepted(Run(p, events)) == Accepted(p) + Offered(p, events)
    ensures Run(p, events).whole == p.whole
    decreases |events|
  {
    hide Accepted, Offered, Added, Inv, AfterSend, AfterComplete, AfterFail, Launched;
    if events == [] {
      NothingOffered(p);
    } else {
      var e, q := events[0], Next(p, events[0]);
      NextKeeps(p, e);
      Conservation(q, events[1..]);
      OfferedCases(p, events);
      var d := if e.Send? then Added(p, e.chain) else [];
      assert Accepted(p) + d + Offered(q, events[1..]) == Accepted(p) + (d + Offered(q, events[1..]));
    }
  }

  lemma NothingOffered(p: Pipeline)
    ensures Offered(p, []) == [] && Accepted(p) + [] == Accepted(p)
  {
  }

  lemma NextKeeps(p: Pipeline, e: Event)
    requires Inv(p) && ValidEvent(p, e)
    ensures var q := Next(p, e);
            && Inv(q) && q.whole == p.whole
            && Accepted(q) == Accepted(p) + if e.Send? then Added(p, e.chain) else []
  {
    match e {
      case Send(chain) => SendKeeps(p, chain);
      case Complete => CompleteKeeps(p); assert Accepted(p) + [] == Accepted(p);
      case Fail => CompleteKeeps(p); assert Accepted(p) + [] == Accepted(p);
      case Close => assert Accepted(p) + [] == Accepted(p);
    }
  }

  ghost predicate NotEmpty(chains: seq<seq<Chunk>>) {
    forall i | 0 <= i < |chains| :: chains[i] != []
  }

  /** Every payload is one piece, up to empty ones. */
  ghost predicate OnePiece(chains: seq<seq<Chunk>>) {
    forall i | 0 <= i < |chains| && chains[i] != [] :: Flat(chains[i][1..]) == []
  }

  lemma {:induction false} HeadsOfPayloads(chains: seq<seq<Chunk>>)
    requires NotEmpty(chains)
    ensures |Heads(chains)| <= |Payloads(chains)|
    ensures |Heads(chains)| == |Payloads(chains)| <==> OnePiece(chains)
    ensures OnePiece(chains) ==> Heads(chains) == Payloads(chains)
  {
    if chains != [] {
      HeadsOfPayloads(chains[1..]);
      OnePieceCons(chains);
      FlatHead(chains[0]);
      assert Flat(chains[0][1..]) == [] ==> Flat(chains[0]) == chains[0][0].bytes;
    }
  }

  lemma OnePieceCons(chains: seq<seq<Chunk>>)
    requires chains != [] && chains[0] != []
    ensures OnePiece(chains) <==> Flat(chains[0][1..]) == [] && OnePiece(chains[1..])
  {
    if OnePiece(chains[1..]) {
      assert forall i | 1 <= i < |chains| :: chains[i] == chains[1..][i - 1];
    }
  }

  /** A run accepts its payloads, all of them and nothing else, if and only if the links
      are read in time or each payload is a single piece; what it has sent is a part of
      them from the beginning. */
  lemma TransmitsPayloads(whole: bool, events: seq<Event>)
    requires ValidRun(Idle(whole), events)
    ensures var p := Run(Idle(whole), events);
            && Inv(p) && p.sent <= Accepted(p)
            && Accepted(p) == (if whole then Payloads(Sends(events)) else Heads(Sends(events)))
            && (Accepted(p) == Payloads(Sends(events)) <==> whole || OnePiece(Sends(events)))
  {
    hide *;
    IdleFacts(whole, events);
    Conservation(Idle(whole), events);
    ValidRunSends(Idle(whole), events);
    HeadsOfPayloads(Sends(events));
    SentFirst(Run(Idle(whole), events));
  }

  lemma IdleFacts(whole: bool, events: seq<Event>)
    ensures var p := Idle(whole);
            && Inv(p) && Accepted(p) == [] && Accepted(p) + Offered(p, events) == Offered(p, events)
            && Offered(p, events) == if whole then Payloads(Sends(events)) else Heads(Sends(events))
  {
  }

  lemma SentFirst(p: Pipeline)
    ensures p.sent <= Accepted(p)
  {
    assert Accepted(p) == p.sent + (p.lost + Flat(p.flight) + Flat(p.out));
  }

  lemma {:induction false} ValidRunSends(p: Pipeline, events: seq<Event>)
    requires ValidRun(p, events)
    ensures NotEmpty(Sends(events))
    decreases |events|
  {
    if events != [] {
      ValidRunSends(Next(p, events[0]), events[1..]);
    }
  }
}
