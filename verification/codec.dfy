/**
 The message codec over a buffer: filling an empty buffer with a frame, and taking
 messages out of an input buffer.
 */
module Codec {
  import opened Common
  import opened Chunks
  import opened Buffers
  import opened Streams
  import opened Frames

  // ---------------------------------------------------------------------
  // Encoding
  // ---------------------------------------------------------------------

  /** Serialises a body to the stream, region by region. */
  method Serialize(stream: BufferOutputStream, body: seq<byte>)
    requires stream.Valid() && stream.kept == [] && stream.buffer.view != []
    requires Packed(stream.buffer.view) && Dense(stream.buffer.view)
    modifies stream, stream.buffer, stream.buffer.queue, stream.buffer.queue.repr
    ensures stream.Valid() && stream.original == old(stream.original) && stream.kept == body
    ensures stream.buffer.view != [] && Packed(stream.buffer.view) && Dense(stream.buffer.view)
    ensures stream.buffer.view[0].off == old(stream.buffer.view)[0].off
    ensures fresh(stream.buffer.queue.repr - old(stream.buffer.queue.repr))
  {
    hide *;
    var done: nat := 0;
    while done < |body|
      invariant done <= |body| && stream.Valid() && stream.original == old(stream.original)
      invariant stream.kept == body[..done]
      invariant stream.buffer.view != [] && Packed(stream.buffer.view) && Dense(stream.buffer.view)
      invariant stream.buffer.view[0].off == old(stream.buffer.view)[0].off
      invariant fresh(stream.buffer.queue.repr - old(stream.buffer.queue.repr))
    {
      var n := stream.Put(body[done..]);
      assert body[..done] + body[done..][..n] == body[..done + n];
      done := done + n;
    }
  }

  /** Fills an empty buffer with the frame of a message.  The frame starts at the
      beginning of the first block, which holds as much of it as it can. */
  method FillEmptyBuffer(buf: Buffer, m: Message)
    requires buf.Valid() && buf.view == [] && |m.name| + 1 < TWO_31
    modifies buf, buf.queue, buf.queue.repr
    ensures buf.Valid() && Flat(buf.view) == Frame(m)
    ensures buf.view != [] && buf.view[0].bytes == FirstBlock(Frame(m)) && Dense(buf.view)
    ensures fresh(buf.queue.repr - old(buf.queue.repr))
  {
    hide *;
    Sizes();
    FrameFields(m);
    var nameLen := |m.name| + 1;
    buf.ReservedPrepend(HEADER_LEN);
    ReservedFacts();
    WriteField(buf, BigEndian(nameLen));
    RipeFacts(buf.view);
    WriteField(buf, m.name + [0]);
    var output := new BufferOutputStream(buf);
    Serialize(output, m.body);
    output.Facts();
    buf.ReadableFacts();
    UnderPacked(buf.view, BigEndian(buf.length));
    UnderDense(buf.view, BigEndian(buf.length));
    buf.Prepend(BigEndian(buf.length));
    buf.ReadableFacts();
    buf.HeadFacts();
    PackedFirst(buf.view);
  }

  lemma ReservedFacts()
    ensures Packed([Chunk(HEADER_LEN, [])]) && Flat([Chunk(HEADER_LEN, [])]) == []
    ensures Ripe([Chunk(HEADER_LEN, [])])
  {
    FlatOne(Chunk(HEADER_LEN, []));
  }

  /** No piece but the last is empty, and that one has room then. */
  ghost predicate Ripe(v: seq<Chunk>) {
    v != [] && Dense(v[..|v| - 1]) && (Last(v).Room() == 0 ==> Dense(v))
  }

  lemma RipeFacts(v: seq<Chunk>)
    ensures Ripe(v) <==> v != [] && Dense(v[..|v| - 1]) && (Last(v).Room() == 0 ==> Dense(v))
    ensures v != [] && Dense(v) ==> Ripe(v)
  {
  }

  lemma UnderDense(v: seq<Chunk>, d: seq<byte>)
    requires v != [] && Dense(v) && |d| <= v[0].off
    ensures Dense(SetFirst(v, v[0].Under(d)))
  {
  }

  /** A write behind room reserved in front keeps the room. */
  method WriteField(buf: Buffer, d: seq<byte>)
    requires buf.Valid() && Packed(buf.view) && Ripe(buf.view) && d != []
    modifies buf, buf.queue, buf.queue.repr
    ensures buf.Valid() && buf.view != [] && Packed(buf.view) && Dense(buf.view)
    ensures buf.view[0].off == old(buf.view)[0].off
    ensures Flat(buf.view) == Flat(old(buf.view)) + d
    ensures fresh(buf.queue.repr - old(buf.queue.repr))
  {
    hide *;
    buf.ReadableFacts();
    buf.HeadFacts();
    RipeFacts(buf.view);
    WritePacked(buf.view, d);
    WriteDense(buf.view, d);
    buf.Write(d);
  }

  // ---------------------------------------------------------------------
  // Decoding
  // ---------------------------------------------------------------------

  /** A parser taking pieces: of the n bytes of `v` it uses, `left` are still in `w`. */
  ghost predicate Taking(v: seq<Chunk>, n: nat, w: seq<Chunk>, left: nat) {
    && Dense(v) && n <= |Flat(v)| && left <= |Flat(w)| && |Flat(w)| - left == |Flat(v)| - n
    && |w| <= |v| && w == v[|v| - |w|..] && Rest(w, left) == Rest(v, n)
  }

  lemma TakingStart(v: seq<Chunk>, n: nat)
    requires Dense(v) && n <= |Flat(v)|
    ensures Taking(v, n, v, n)
  {
    assert v[0..] == v;
  }

  lemma TakingHead(v: seq<Chunk>, n: nat, w: seq<Chunk>, left: nat)
    requires Taking(v, n, w, left) && left > 0
    ensures w != [] && w[0].bytes != [] && Dense(w) && Flat(w) != []
  {
  }

  /** The first piece is used whole. */
  lemma TakingWhole(v: seq<Chunk>, n: nat, w: seq<Chunk>, left: nat)
    requires Taking(v, n, w, left) && w != [] && left >= |w[0].bytes|
    ensures Taking(v, n, w[1..], left - |w[0].bytes|)
  {
    assert w[1..] == v[|v| - |w[1..]|..];
    FlatHead(w);
    if left == |w[0].bytes| {
      DropNone(w[1..]);
    }
  }

  /** Part of the first piece is used, and the rest of it given back. */
  lemma TakingSplit(v: seq<Chunk>, n: nat, w: seq<Chunk>, left: nat, tail: bool, env: Env)
    requires Taking(v, n, w, left) && w != [] && 0 < left < |w[0].bytes|
    ensures [w[0].Skipped(left)] + w[1..] == Rest(v, n)
    ensures TailAfter(v, |Flat(v)| - n, tail, env) <==> if w[1..] == [] then env.restoresTail else tail
  {
    FlatHead(w);
    assert Last(v) == Last(w);
    if |w| > 1 {
      LastIsPart(w[1..]);
    }
  }

  lemma LastIsPart(v: seq<Chunk>)
    requires v != []
    ensures |Last(v).bytes| <= |Flat(v)|
  {
    var front := v[..|v| - 1];
    assert v == front + [Last(v)];
    FlatPush(front, Last(v));
  }

  lemma TakingEnd(v: seq<Chunk>, n: nat, w: seq<Chunk>, tail: bool, env: Env)
    requires Taking(v, n, w, 0)
    ensures w == Rest(v, n) && (TailAfter(v, |Flat(v)| - n, tail, env) <==> tail || w == [])
  {
    DropNone(w);
    if w != [] {
      assert Last(v) == Last(w);
      LastIsPart(w);
      DenseFacts(w);
    }
  }

  /** The parser's side of the input stream: it asks for pieces until it has the n bytes it
      uses, and gives back what is left of the last one. */
  method Consume(stream: BufferInputStream, n: nat, env: Env)
    requires stream.Valid() && Dense(stream.buffer.view) && n <= |Flat(stream.buffer.view)|
    modifies stream, stream.buffer, stream.buffer.queue, stream.buffer.queue.repr
    ensures stream.Valid() && stream.buffer.view == Rest(old(stream.buffer.view), n)
    ensures stream.buffer.queue.TailOk()
            <==> TailAfter(old(stream.buffer.view), |Flat(old(stream.buffer.view))| - n,
                           old(stream.buffer.queue.TailOk()), env)
    ensures stream.buffer.queue.repr <= old(stream.buffer.queue.repr)
  {
    hide *;
    ghost var v, tail := stream.buffer.view, stream.buffer.queue.TailOk();
    var left: nat := n;
    TakingStart(v, n);
    stream.Facts();
    stream.buffer.ReadableFacts();
    stream.buffer.TailCases();
    while left > 0
      invariant stream.Valid() && stream.buffer.queue.repr <= old(stream.buffer.queue.repr)
      invariant Taking(v, n, stream.buffer.view, left)
      invariant stream.buffer.queue.TailOk() <==> tail || stream.buffer.view == []
      decreases left
    {
      ghost var w := stream.buffer.view;
      TakingHead(v, n, w, left);
      var size := TakePiece(stream, left, env.restoresTail);
      if size > left {
        TakingSplit(v, n, w, left, tail, env);
        return;
      }
      TakingWhole(v, n, w, left);
      left := left - size;
    }
    TakingEnd(v, n, stream.buffer.view, tail, env);
  }

  /** Asks for a piece, and gives back what is beyond the `left` bytes still to be used. */
  method TakePiece(stream: BufferInputStream, left: nat, restore: bool) returns (size: nat)
    requires stream.Valid() && stream.buffer.view != [] && stream.buffer.view[0].bytes != [] && left > 0
    modifies stream, stream.buffer, stream.buffer.queue, stream.buffer.queue.repr
    ensures stream.Valid() && size == |old(stream.buffer.view)[0].bytes|
    ensures size > left ==>
              && stream.buffer.view == [old(stream.buffer.view)[0].Skipped(left)] + old(stream.buffer.view)[1..]
              && (stream.buffer.queue.TailOk()
                  <==> if old(stream.buffer.view)[1..] == [] then restore else old(stream.buffer.queue.TailOk()))
    ensures size <= left ==>
              && stream.buffer.view == old(stream.buffer.view)[1..]
              && (stream.buffer.queue.TailOk() <==> old(stream.buffer.queue.TailOk()) || stream.buffer.view == [])
    ensures stream.buffer.queue.repr <= old(stream.buffer.queue.repr)
  {
    hide *;
    var region := stream.Next();
    size := |region.value|;
    if size > left {
      stream.BackUp(size - left, restore);
    }
  }

  /** Parses a message whose length field has been skipped. */
  method Parse(buf: Buffer, len: int, env: Env) returns (event: Event)
    requires buf.Readable() && Dense(buf.view) && buf.length >= HEADER_LEN
    modifies buf, buf.queue, buf.queue.repr
    ensures buf.Readable() && buf.queue.repr <= old(buf.queue.repr)
    ensures |Flat(old(buf.view))| >= HEADER_LEN
    ensures Decoded(buf.view, buf.queue.TailOk(), [event])
            == Frames.Parse(old(buf.view), len, old(buf.queue.TailOk()), env)
  {
    hide *;
    Sizes();
    buf.ReadableFacts();
    ghost var v, tail := buf.view, buf.queue.TailOk();
    ParseCases(v, len, tail, env);
    var d := buf.Read(HEADER_LEN);
    buf.ReadableFacts();
    var nameLen := FromBigEndian(d);
    if nameLen > 0 {
      if buf.length >= nameLen {
        var typeName := buf.Read(nameLen);
        buf.ReadableFacts();
        var name := CString(typeName);
        if name in env.registry {
          NothingToGiveBack(name, buf.view, len - HEADER_LEN - nameLen, tail, env);
          event := ParseFields(buf, name, len - HEADER_LEN - nameLen, env);
        } else {
          event := Error(UnknownMessageType);
        }
      } else {
        event := Error(ParseError);
      }
    } else {
      event := Error(InvalidNameLen);
    }
  }

  /** Has the fields parsed from a stream over the buffer.  What the parser will make of
      the bytes, and how many it will use, is known from a copy of them. */
  method ParseFields(buf: Buffer, name: seq<byte>, n: int, env: Env) returns (event: Event)
    requires buf.Readable() && Dense(buf.view)
    modifies buf, buf.queue, buf.queue.repr
    ensures buf.Readable() && buf.queue.repr <= old(buf.queue.repr)
    ensures Decoded(buf.view, buf.queue.TailOk(), [event])
            == ParseBody(name, old(buf.view), n, old(buf.queue.TailOk()), env)
  {
    hide *;
    var all := buf.Contents();
    ParseBodyCases(name, buf.view, n, buf.queue.TailOk(), env);
    var d := Offered(env, all, n);
    var input := new BufferInputStream(buf);
    Consume(input, Used(env, name, d), env);
    input.Facts();
    event := Deliver(Message(name, env.parse(name, d).body));
  }

  lemma ParseBodyCases(name: seq<byte>, body: seq<Chunk>, n: int, tail: bool, env: Env)
    ensures var d := Offered(env, Flat(body), n);
            var used := Used(env, name, d);
            used <= |Flat(body)| && ParseBody(name, body, n, tail, env)
            == Decoded(Rest(body, used), TailAfter(body, |Flat(body)| - used, tail, env),
                       [Deliver(Message(name, env.parse(name, d).body))])
  {
    hide Flat, Dense, AllOk, Drop, InsideLast;
  }

  lemma NothingToGiveBack(name: seq<byte>, body: seq<Chunk>, n: int, tail: bool, env: Env)
    ensures ParseBody(name, body, n, tail || body == [], env) == ParseBody(name, body, n, tail, env)
  {
  }

  lemma ParseCases(v: seq<Chunk>, len: int, tail: bool, env: Env)
    requires Dense(v) && |Flat(v)| >= HEADER_LEN
    ensures v != []
    ensures var named := Drop(v, HEADER_LEN);
            var nameLen := FromBigEndian(Flat(v)[..HEADER_LEN]);
            var r := Frames.Parse(v, len, tail, env);
            && Flat(named) == Flat(v)[HEADER_LEN..] && Dense(named)
            && if nameLen <= 0 then r == Decoded(named, tail || named == [], [Error(InvalidNameLen)])
               else if |Flat(named)| < nameLen then r == Decoded(named, tail || named == [], [Error(ParseError)])
               else named != [] && var body := Drop(named, nameLen);
                    var name := CString(Flat(named)[..nameLen]);
                    && Dense(body)
                    && r == if name in env.registry then ParseBody(name, body, len - HEADER_LEN - nameLen, tail, env)
                            else Decoded(body, tail || body == [], [Error(UnknownMessageType)])
  {
  }

  /** Takes messages out of the input buffer for as long as it holds a whole one. */
  method OnMessage(buf: Buffer, env: Env) returns (events: seq<Event>)
    requires buf.Readable() && Dense(buf.view)
    modifies buf, buf.queue, buf.queue.repr
    ensures buf.Readable() && buf.queue.repr <= old(buf.queue.repr)
    ensures Decoded(buf.view, buf.queue.TailOk(), events)
            == Frames.OnMessage(old(buf.view), old(buf.queue.TailOk()), env)
  {
    hide *;
    Sizes();
    events := [];
    ghost var goal := Frames.OnMessage(buf.view, buf.queue.TailOk(), env);
    ThenFacts([], [], goal);
    buf.ReadableFacts();
    while buf.length >= MIN_MESSAGE_LEN + HEADER_LEN
      invariant buf.Readable() && Dense(buf.view) && buf.length == |Flat(buf.view)|
      invariant buf.queue.repr <= old(buf.queue.repr)
      invariant Then(events, Frames.OnMessage(buf.view, buf.queue.TailOk(), env)) == goal
      decreases buf.length
    {
      RoundCases(buf.view, buf.queue.TailOk(), events, env);
      var peeked := PeekHeader(buf, env);
      if peeked == None {
        events := events + [Undefined];
        return;
      }
      var len := FromBigEndian(peeked.value);
      if len > MAX_MESSAGE_LEN || len < MIN_MESSAGE_LEN {
        events := events + [Error(InvalidLength)];
        return;
      } else if buf.length >= len + HEADER_LEN {
        buf.Skip(HEADER_LEN);
        buf.ReadableFacts();
        var event := Parse(buf, len, env);
        buf.ReadableFacts();
        events := events + [event];
        if !event.Deliver? {
          return;
        }
      } else {
        return;
      }
    }
    EmptyRound(buf.view, buf.queue.TailOk(), events, env);
  }

  /** What a round of the loop does to the result of all of them. */
  lemma RoundCases(v: seq<Chunk>, tail: bool, events: seq<Event>, env: Env)
    requires Dense(v) && |Flat(v)| >= MIN_MESSAGE_LEN + HEADER_LEN
    ensures v != []
    ensures var all := Then(events, Frames.OnMessage(v, tail, env));
            match Header(v, env)
            case None => all == Decoded(v, tail, events + [Undefined])
            case Some(d) =>
              var len := FromBigEndian(d);
              if len > MAX_MESSAGE_LEN || len < MIN_MESSAGE_LEN then all == Decoded(v, tail, events + [Error(InvalidLength)])
              else if |Flat(v)| < len + HEADER_LEN then all == Decoded(v, tail, events)
              else
                var w := Drop(v, HEADER_LEN);
                && w != [] && Dense(w) && |Flat(w)| >= HEADER_LEN
                && var p := Frames.Parse(w, len, tail, env);
                   && |p.events| == 1 && Dense(p.view) && |Flat(p.view)| < |Flat(v)|
                   && all == if p.events[0].Deliver?
                             then Then(events + p.events, Frames.OnMessage(p.view, p.tail, env))
                             else Decoded(p.view, p.tail, events + p.events)
  {
    hide Flat, Dense, Frames.OnMessage, Frames.Parse, Header, FromBigEndian;
    OnMessageCases(v, tail, env);
    DenseFacts(v);
    if Whole(v, env) {
      var w := Rest(v, HEADER_LEN);
      var len := FromBigEndian(Header(v, env).value);
      var p := Frames.Parse(w, len, tail, env);
      ParseDense(w, len, tail, env);
      DenseFacts(w);
      ThenFacts(events, p.events, Frames.OnMessage(p.view, p.tail, env));
    } else {
      assert events + [] == events;
    }
  }

  lemma EmptyRound(v: seq<Chunk>, tail: bool, events: seq<Event>, env: Env)
    requires |Flat(v)| < MIN_MESSAGE_LEN + HEADER_LEN
    ensures Then(events, Frames.OnMessage(v, tail, env)) == Decoded(v, tail, events)
  {
    assert events + [] == events;
  }

  method PeekHeader(buf: Buffer, env: Env) returns (r: Option<seq<byte>>)
    requires buf.Readable() && buf.length >= HEADER_LEN
    ensures |Flat(buf.view)| >= HEADER_LEN && r == Header(buf.view, env)
  {
    buf.ReadableFacts();
    if env.byteOffsets {
      var d := buf.PeekByBytes(HEADER_LEN);
      r := Some(d);
    } else {
      r := buf.Peek(HEADER_LEN);
    }
  }
}
