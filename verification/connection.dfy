/**
 The data path of a TCP connection: payloads into the output buffer and out to the
 socket, received pieces into the input buffer and on to the codec.
 */
module Connection {
  import opened Chunks
  import opened Pieces
  import opened Buffers
  import opened SendPipeline
  import Frames
  import Receiving
  import Codec

  /** How a read or write ends: it is aborted when the socket is closed under it. */
  datatype Result = Success | Aborted | Failed

  class TCPConn {
    const whole: bool             // whether chains are appended whole, as intended
    const output: Buffer
    const input: Buffer
    var connected: bool
    var isSending: bool
    var flight: seq<Piece>        // pieces the socket is writing
    ghost var flightView: seq<Chunk>
    ghost var sent: seq<byte>     // bytes of completed writes
    ghost var lost: seq<byte>     // bytes of a failed write

    /** A connection that has just been established. */
    constructor (whole: bool)
      ensures Valid() && State() == Idle(whole) && input.view == [] && input.queue.TailOk()
    {
      this.whole := whole;
      output := new Buffer();
      input := new Buffer();
      connected, isSending, flight := true, false, [];
      flightView, sent, lost := [], [], [];
      new;
      assert Inv(Idle(whole));
    }

    ghost function State(): Pipeline
      reads this, output
    {
      Pipeline(whole, connected, sent, lost, flightView, output.view, isSending)
    }

    ghost predicate Valid()
      reads this, output, output.queue, output.queue.repr, flight, input, input.queue, input.queue.repr
    {
      && input != output && input.queue != output.queue && input.queue.repr !! output.queue.repr
      && output.Valid() && input.Readable() && Dense(input.view)
      && Holds(flight, flightView) && (forall p | p in flight :: p !in output.queue.repr && p !in input.queue.repr)
      && Inv(State())
    }

    lemma Facts()
      ensures Valid() <==>
              && input != output && input.queue != output.queue && input.queue.repr !! output.queue.repr
              && output.Valid() && input.Readable() && Dense(input.view)
              && Holds(flight, flightView) && (forall p | p in flight :: p !in output.queue.repr && p !in input.queue.repr)
              && Inv(State())
      ensures State() == Pipeline(whole, connected, sent, lost, flightView, output.view, isSending)
    {
    }

    /** Appends what reaches the output buffer of a chain of pieces, and starts a write
        unless one is outstanding. */
    method SendInLoop(queueHead: Piece, ghost chain: seq<Piece>, ghost values: seq<Chunk>)
      requires Valid() && connected && Chain(chain) && Holds(chain, values) && chain != [] && queueHead == chain[0]
      requires ValidChain(State(), values)
      requires forall i | 0 <= i < |chain| ::
                 chain[i] !in output.queue.repr && chain[i] !in input.queue.repr && chain[i] !in flight
      modifies this, output, output.queue, output.queue.repr, chain
      ensures Valid() && State() == AfterSend(old(State()), values) && input.view == old(input.view)
    {
      hide *;
      Facts();
      ghost var p := State();
      HoldsLength(chain, values);
      HoldsLength(flight, flightView);
      SendCases(p, values);
      SendKeeps(p, values);
      Append(queueHead, chain, values);
      output.ReadableFacts();
      if !isSending {
        StartWrite(p.(out := output.view));
      }
      Facts();
    }

    method Append(queueHead: Piece, ghost chain: seq<Piece>, ghost values: seq<Chunk>)
      requires output.Valid() && Chain(chain) && Holds(chain, values) && chain != [] && queueHead == chain[0]
      requires ValidChain(State(), values) && forall i | 0 <= i < |chain| :: chain[i] !in output.queue.repr
      modifies output, output.queue, output.queue.repr, chain
      ensures values != [] && output.Valid() && output.view == old(output.view) + Reaching(old(State()), values)
      ensures forall p | p in output.queue.repr :: p in old(output.queue.repr) || p in chain
    {
      ReachingFacts(State(), values);
      if whole {
        output.WriteWholeQueue(queueHead, chain, values);
      } else {
        output.WritePieceQueue(queueHead, chain, values);
      }
    }

    /** Hands the first piece of the output buffer to the socket. */
    method StartWrite(ghost p: Pipeline)
      requires output.Valid() && output.length > 0 && flight == [] && flightView == []
      requires p == Pipeline(whole, connected, sent, lost, [], output.view, isSending)
      modifies `flight, `flightView, `isSending, output, output.queue, output.queue.repr
      ensures p.out != [] && output.Valid() && Holds(flight, flightView)
      ensures Pipeline(whole, connected, sent, lost, flightView, output.view, isSending) == Launched(p)
      ensures output.queue.repr <= old(output.queue.repr)
      ensures forall q | q in flight :: q in old(output.queue.repr) && q !in output.queue.repr
    {
      hide *;
      isSending := true;
      var piece := output.ReadPiece();
      LaunchedFields(p);
      HoldsOne(piece);
      flight, flightView := [piece], [piece.Value()];
    }

    /** Writes on if anything is left. */
    method LaunchWrite(ghost p: Pipeline)
      requires output.Valid() && flight == [] && flightView == []
      requires p == Pipeline(whole, connected, sent, lost, [], output.view, isSending)
      modifies `flight, `flightView, `isSending, output, output.queue, output.queue.repr
      ensures output.Valid() && Holds(flight, flightView)
      ensures Pipeline(whole, connected, sent, lost, flightView, output.view, isSending)
              == if |Flat(p.out)| > 0 && p.out != [] then Launched(p) else p
      ensures output.queue.repr <= old(output.queue.repr)
      ensures forall q | q in flight :: q in old(output.queue.repr) && q !in output.queue.repr
    {
      hide *;
      output.ReadableFacts();
      HoldsNone();
      if output.length > 0 {
        StartWrite(p);
      }
    }

    /** The socket has written the piece it was given, or failed to. */
    method HandleWrite(result: Result)
      requires Valid() && flight != [] && (result == Aborted ==> !connected)
      modifies this, output, output.queue, output.queue.repr
      ensures Valid() && old(State()).flight != [] && input.view == old(input.view)
      ensures State() == if result == Success then AfterComplete(old(State())) else AfterFail(old(State()))
    {
      hide *;
      Facts();
      HoldsLength(flight, flightView);
      HoldsNone();
      ghost var p := State();
      CompleteCases(p);
      CompleteKeeps(p);
      isSending := false;
      if result == Success {
        sent := sent + flightView[0].bytes;
        flight, flightView := [], [];
        LaunchWrite(p.(sent := sent, flight := [], sending := false));
      } else {
        lost := flightView[0].bytes;
        flight, flightView := [], [];
        if result == Failed {
          HandleError();
        }
      }
      Facts();
    }

    /** What an error or a close means to the data path: no send is accepted any more. */
    method HandleError()
      modifies `connected
      ensures !connected
    {
      connected := false;
    }

    method Close()
      requires Valid()
      modifies `connected
      ensures Valid() && State() == Next(old(State()), SendPipeline.Close)
    {
      HandleError();
    }

    /** Sends bytes: a buffer of their own is filled and its chain of pieces sent. */
    method Send(d: seq<byte>)
      requires Valid()
      modifies this, output, output.queue, output.queue.repr
      ensures Valid() && input.view == old(input.view)
      ensures !old(connected) || d == [] ==> State() == old(State())
      ensures d != [] ==> var chain := Write([], d);
                          chain != [] && State() == AfterSend(old(State()), chain)
    {
      hide *;
      DataChain(d);
      Facts();
      ClosedCases(State(), Write([], d));
      if !connected || d == [] {
        return;
      }
      var buffer := new Buffer();
      buffer.Write(d);
      buffer.ReadableFacts();
      ChainOf(State(), buffer.view);
      SendBuffer(buffer);
    }

    /** Sends the contents of a buffer, which becomes empty. */
    method SendBuffer(buffer: Buffer)
      requires Valid() && buffer.Valid() && buffer != output && buffer.queue != output.queue
      requires buffer != input && buffer.queue != input.queue
      requires buffer.queue.repr !! output.queue.repr && buffer.queue.repr !! input.queue.repr
      requires forall p | p in flight :: p !in buffer.queue.repr
      requires buffer.length > 0 ==> ValidChain(State(), buffer.view)
      modifies this, output, output.queue, output.queue.repr, buffer, buffer.queue, buffer.queue.repr
      ensures Valid() && input.view == old(input.view)
      ensures !old(connected) || |Flat(old(buffer.view))| == 0 ==>
                State() == old(State()) && buffer.view == old(buffer.view)
      ensures old(connected) && |Flat(old(buffer.view))| > 0 ==>
                old(buffer.view) != [] && State() == AfterSend(old(State()), old(buffer.view)) && buffer.view == []
    {
      hide *;
      buffer.ReadableFacts();
      buffer.HeadFacts();
      if !connected || buffer.length == 0 {
        return;
      }
      buffer.ShapeFacts();
      buffer.ItemsOwned();
      ghost var chain, values := buffer.queue.items, buffer.view;
      var queueHead := buffer.MoveToQueueHead();
      SendInLoop(queueHead, chain, values);
    }

    /** Sends a message: of its frame, the first block is accepted for sending, or all of
        it where chains are appended whole. */
    method SendMessage(m: Frames.Message)
      requires Valid() && |m.name| + 1 < Frames.TWO_31
      modifies this, output, output.queue, output.queue.repr
      ensures Valid() && input.view == old(input.view)
      ensures Accepted(State()) == Accepted(old(State()))
                + if !old(connected) then [] else if whole then Frames.Frame(m) else FirstBlock(Frames.Frame(m))
    {
      hide *;
      var buf := new Buffer();
      Codec.FillEmptyBuffer(buf, m);
      buf.ReadableFacts();
      buf.HeadFacts();
      FrameNotEmpty(m);
      Facts();
      ChainOf(State(), buf.view);
      SendKeeps(State(), buf.view);
      ClosedCases(State(), buf.view);
      AddedCases(State(), buf.view);
      SendBuffer(buf);
    }

    /** A piece of d has been received: it is stored and the codec called.  A queue that
        has lost its tail cannot be appended to.  A failed read closes the connection. */
    method HandleRead(result: Result, d: seq<byte>, env: Frames.Env) returns (events: seq<Frames.Event>)
      requires Valid() && (result == Success ==> 0 < |d| <= CAPACITY) && (result == Aborted ==> !connected)
      modifies `connected, input, input.queue, input.queue.repr
      ensures Valid() && State() == if result == Failed then Next(old(State()), SendPipeline.Close) else old(State())
      ensures result == Success ==>
                Frames.Decoded(input.view, input.queue.TailOk(), events)
                == Receiving.Arrive(old(input.view), old(input.queue.TailOk()), d, env)
      ensures result != Success ==>
                events == [] && input.view == old(input.view) && input.queue.TailOk() == old(input.queue.TailOk())
      ensures fresh(input.queue.repr - old(input.queue.repr))
    {
      hide *;
      Facts();
      events := [];
      if result == Failed {
        CloseKeeps(State());
        HandleError();
      }
      if result == Success {
        events := Store(input, d, env);
      }
      Facts();
    }
  }

  /** Puts d, as received in a new piece, into an input buffer and takes messages out. */
  method Store(input: Buffer, d: seq<byte>, env: Frames.Env) returns (events: seq<Frames.Event>)
    requires input.Readable() && Dense(input.view) && 0 < |d| <= CAPACITY
    modifies input, input.queue, input.queue.repr
    ensures input.Readable() && Dense(input.view)
    ensures Frames.Decoded(input.view, input.queue.TailOk(), events)
            == Receiving.Arrive(old(input.view), old(input.queue.TailOk()), d, env)
    ensures fresh(input.queue.repr - old(input.queue.repr))
  {
    hide *;
    input.ReadableFacts();
    input.TailCases();
    ArriveCases(input.view, input.queue.TailOk(), d, env);
    if input.queue.tail == null && input.queue.head != null {
      return [Frames.Undefined];
    }
    StorePiece(input, d);
    input.ReadableFacts();
    Frames.OnMessageDense(input.view, true, env);
    events := Codec.OnMessage(input, env);
  }

  lemma ArriveCases(v: seq<Chunk>, tail: bool, d: seq<byte>, env: Frames.Env)
    ensures Receiving.Arrive(v, tail, d, env)
            == if tail then Frames.OnMessage(WithPiece(v, Chunk(0, d)), true, env)
               else Frames.Decoded(v, false, [Frames.Undefined])
  {
  }

  method StorePiece(input: Buffer, d: seq<byte>)
    requires input.Valid() && Dense(input.view) && 0 < |d| <= CAPACITY
    modifies input, input.queue, input.queue.repr
    ensures input.Valid() && Dense(input.view) && input.view == WithPiece(old(input.view), Chunk(0, d))
    ensures fresh(input.queue.repr - old(input.queue.repr))
  {
    hide *;
    var piece := new Piece();
    NewPieceFacts(piece);
    piece.Append(d);
    ItemFacts(piece);
    PieceOf(d);
    input.ReadableFacts();
    input.HeadFacts();
    WithPieceFlat(input.view, piece.Value());
    input.WritePiece(piece);
  }

  /** Reads fragment after fragment from the socket, up to the first thing undefined. */
  method HandleReads(conn: TCPConn, fragments: seq<seq<byte>>, env: Frames.Env)
    returns (events: seq<Frames.Event>)
    requires conn.Valid() && Receiving.ValidFragments(fragments)
    modifies conn`connected, conn.input, conn.input.queue, conn.input.queue.repr
    ensures conn.Valid() && conn.State() == old(conn.State())
    ensures Frames.Decoded(conn.input.view, conn.input.queue.TailOk(), events)
            == Receiving.Receive(old(conn.input.view), old(conn.input.queue.TailOk()), fragments, env)
  {
    hide *;
    events := [];
    var i: nat := 0;
    assert fragments[0..] == fragments;
    ghost var goal := Receiving.Receive(conn.input.view, conn.input.queue.TailOk(), fragments, env);
    Frames.ThenFacts([], [], goal);
    while i < |fragments|
      invariant i <= |fragments| && conn.Valid() && conn.State() == old(conn.State())
      invariant fresh(conn.input.queue.repr - old(conn.input.queue.repr))
      invariant goal == Frames.Then(events, Receiving.Receive(conn.input.view, conn.input.queue.TailOk(), fragments[i..], env))
    {
      ghost var v, tail := conn.input.view, conn.input.queue.TailOk();
      ghost var before := events;
      ReceiveFirst(v, tail, fragments, i, env);
      var more := conn.HandleRead(Success, fragments[i], env);
      events := events + more;
      ghost var step := Frames.Decoded(conn.input.view, conn.input.queue.TailOk(), more);
      Frames.ThenFacts(before, [], step);
      if Frames.Undefined in more {
        return;
      }
      Frames.ThenFacts(before, more, Receiving.Receive(step.view, step.tail, fragments[i + 1..], env));
      i := i + 1;
    }
    Receiving.ReceiveNone(conn.input.view, conn.input.queue.TailOk(), env);
    Frames.ThenFacts(events, [], Frames.Decoded(conn.input.view, conn.input.queue.TailOk(), []));
    assert fragments[|fragments|..] == [] && events + [] == events;
  }

  lemma ReceiveFirst(v: seq<Chunk>, tail: bool, fragments: seq<seq<byte>>, i: nat, env: Frames.Env)
    requires i < |fragments| && Receiving.ValidFragments(fragments)
    ensures 0 < |fragments[i]| <= CAPACITY
    ensures var step := Receiving.Arrive(v, tail, fragments[i], env);
            Receiving.Receive(v, tail, fragments[i..], env)
            == if Frames.Undefined in step.events then step
               else Frames.Then(step.events, Receiving.Receive(step.view, step.tail, fragments[i + 1..], env))
  {
    Receiving.ReceiveCons(v, tail, fragments[i..], env);
    assert fragments[i..][1..] == fragments[i + 1..];
  }

  lemma CloseKeeps(p: Pipeline)
    requires Inv(p)
    ensures Inv(p.(open := false)) && Next(p, SendPipeline.Close) == p.(open := false)
  {
  }

  lemma ClosedCases(p: Pipeline, chain: seq<Chunk>)
    requires chain != []
    ensures !p.open ==> AfterSend(p, chain) == p
  {
  }

  lemma ChainOf(p: Pipeline, chain: seq<Chunk>)
    requires chain != [] && AllOk(chain) && Dense(chain)
    ensures ValidChain(p, chain) && ValidEvent(p, SendPipeline.Send(chain))
  {
  }

  lemma AddedCases(p: Pipeline, chain: seq<Chunk>)
    requires chain != []
    ensures Added(p, chain) == if !p.open then [] else if p.whole then Flat(chain) else chain[0].bytes
  {
  }

  lemma HoldsNone()
    ensures Holds([], [])
  {
  }

  lemma HoldsLength(items: seq<Piece>, v: seq<Chunk>)
    requires Holds(items, v)
    ensures |items| == |v|
  {
  }

  lemma PieceOf(d: seq<byte>)
    ensures EMPTY_CHUNK.Plus(d) == Chunk(0, d)
  {
  }

  lemma FrameNotEmpty(m: Frames.Message)
    ensures |Frames.Frame(m)| > 0 && FirstBlock(Frames.Frame(m)) != []
  {
  }

  /** The chain of a payload: its first piece holds the first block of it, and it is one
      piece if and only if it is not longer. */
  lemma DataChain(d: seq<byte>)
    ensures AllOk([])
    ensures var chain := Write([], d);
            && chain != [] && AllOk(chain) && Flat(chain) == d && chain[0].bytes == FirstBlock(d)
            && (d != [] ==> Dense(chain))
            && (Flat(chain[1..]) == [] <==> |d| <= CAPACITY)
  {
    WriteFlat([], d);
    WritePacked([], d);
    PackedFirst(Write([], d));
    FlatHead(Write([], d));
    if d != [] {
      WriteDense([], d);
    }
  }
}
