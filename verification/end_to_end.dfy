/**
 From sender to receiver: one message through the codec, the send pipeline, a byte
 stream cut into arbitrary fragments, and the receiving codec.
 */
module EndToEnd {
  import opened Chunks
  import opened Frames
  import opened Receiving
  import opened SendPipeline

  /** What of a frame is put on the wire: as written, its first block. */
  function OnWire(m: Message, whole: bool): seq<byte> {
    if whole then Frame(m) else FirstBlock(Frame(m))
  }

  /** A run that has written everything. */
  ghost predicate Finished(p: Pipeline) {
    p.flight == [] && p.lost == []
  }

  lemma SentOfOne(m: Message, chain: seq<Chunk>, whole: bool, events: seq<SendPipeline.Event>)
    requires chain != [] && Flat(chain) == Frame(m) && chain[0].bytes == FirstBlock(Frame(m))
    requires ValidRun(Idle(whole), events) && Sends(events) == [chain]
    ensures var p := Run(Idle(whole), events);
            p.sent <= OnWire(m, whole) && (Finished(p) ==> p.sent == OnWire(m, whole))
  {
    TransmitsPayloads(whole, events);
    var p := Run(Idle(whole), events);
    assert Sends(events)[1..] == [];
    assert Payloads(Sends(events)) == Frame(m) + [] == Frame(m);
    assert Heads(Sends(events)) == FirstBlock(Frame(m)) + [] == FirstBlock(Frame(m));
    if Finished(p) {
      assert p.out == [] && Accepted(p) == p.sent + [] + [] + [];
    }
  }

  /** One message over any run of the sender, failed writes and closes included, and any
      fragments of the bytes it has sent: the receiver gets the message, once, exactly when
      its whole frame was sent and its length field not straddled, and before that nothing.
      A finished run sends the first block of the frame, or all of it where chains are
      appended whole.  So the code as written delivers exactly the messages whose frames fit
      one block, in every fragmentation; as intended it delivers every message. */
  lemma OneMessage(m: Message, chain: seq<Chunk>, whole: bool, events: seq<SendPipeline.Event>,
                   fragments: seq<seq<byte>>, env: Env)
    requires Receivable(m, env)
    requires chain != [] && Flat(chain) == Frame(m) && chain[0].bytes == FirstBlock(Frame(m))
    requires ValidRun(Idle(whole), events) && Sends(events) == [chain]
    requires ValidFragments(fragments) && Concat(fragments) == Run(Idle(whole), events).sent
    ensures var p, got := Run(Idle(whole), events), Receive([], true, fragments, env).events;
            && p.sent <= OnWire(m, whole) && (Finished(p) ==> p.sent == OnWire(m, whole))
            && got == (if Fails(0, fragments, env) then [Undefined] else if p.sent == Frame(m) then [Deliver(m)] else [])
            && (!whole ==> !Fails(0, fragments, env))
            && (Finished(p) && !whole ==> got == if |Frame(m)| <= CAPACITY then [Deliver(m)] else [])
            && (Finished(p) && whole && env.byteOffsets ==> got == [Deliver(m)])
  {
    SentOfOne(m, chain, whole, events);
    var p := Run(Idle(whole), events);
    assert p.sent <= Frame(m);
    if !whole {
      SmallFramesNeverStraddle(0, fragments);
    }
    ReceiveFromEmpty(m, fragments, env);
  }

  /** The chains are those of the frames of the messages. */
  ghost predicate ChainsOf(chains: seq<seq<Chunk>>, ms: seq<Message>) {
    |chains| == |ms| && forall i | 0 <= i < |ms| :: Flat(chains[i]) == Frame(ms[i])
  }

  lemma {:induction false} PayloadsAreFrames(chains: seq<seq<Chunk>>, ms: seq<Message>)
    requires ChainsOf(chains, ms)
    ensures Payloads(chains) == FramesOf(ms)
  {
    if ms != [] {
      PayloadsAreFrames(chains[1..], ms[1..]);
    }
  }

  /** Any number of messages with sender and receiver as intended: over every run of the
      sender and every fragmentation of the bytes it has sent, the receiver has got exactly
      the messages whose frames were sent whole, in order, each once; after a finished run,
      all of them. */
  lemma AllMessages(ms: seq<Message>, events: seq<SendPipeline.Event>, fragments: seq<seq<byte>>, env: Env)
    requires AsIntended(env) && forall i | 0 <= i < |ms| :: Receivable(ms[i], env)
    requires ValidRun(Idle(true), events) && ChainsOf(Sends(events), ms)
    requires ValidFragments(fragments) && Concat(fragments) == Run(Idle(true), events).sent
    ensures var p, got := Run(Idle(true), events), Receive([], true, fragments, env).events;
            && p.sent <= FramesOf(ms) && got == Deliveries(ms[..CompleteIn(ms, p.sent)])
            && (Finished(p) ==> got == Deliveries(ms))
  {
    TransmitsPayloads(true, events);
    PayloadsAreFrames(Sends(events), ms);
    var p := Run(Idle(true), events);
    if Finished(p) {
      assert p.out == [] && Accepted(p) == p.sent + [] + [] + [];
    }
    StreamRoundTrip(ms, fragments, env);
  }
}
